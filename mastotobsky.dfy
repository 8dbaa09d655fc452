/** The pure logic of mastoToBsky.js: turning a Mastodon address
    `user@instance` into the handle the Bridgy Fed bridge gives it on
    Bluesky, the bridge and unsupported domains that are skipped, the
    profile and lookup URLs, and how the outcome of one profile lookup is
    classified and retried. */
module MastoToBsky {
  import opened Wrappers
  import opened Text

  const BridgeSuffix := ".ap.brid.gy"
  const ProfileBase := "https://bsky.app/profile/"
  const LookupBase := "https://public.api.bsky.app/xrpc/app.bsky.actor.getProfile?actor="
  /** Rendering of the JavaScript value `undefined` in a template string. */
  const Undefined := "undefined"

  // ---------------------------------------------------------------------
  // Address conversion

  function DashFor(ch: char): char {
    if ch == '_' || ch == '~' then '-' else ch
  }

  /** `address.replace(/[_~]/g, '-')`: every underscore and every tilde
      becomes a dash, every other character stays. */
  function ReplaceUnderscoreTilde(s: string): (r: string)
    ensures |r| == |s|
    ensures '_' !in r && '~' !in r
    ensures forall k :: 0 <= k < |s| && (s[k] == '_' || s[k] == '~') ==> r[k] == '-'
    ensures forall k :: 0 <= k < |s| && s[k] != '_' && s[k] != '~' ==> r[k] == s[k]
  {
    seq(|s|, k requires 0 <= k < |s| => DashFor(s[k]))
  }

  lemma {:induction false} ReplaceUnderscoreTildeAppend(a: string, b: string)
    ensures ReplaceUnderscoreTilde(a + b) == ReplaceUnderscoreTilde(a) + ReplaceUnderscoreTilde(b)
  {
    var l, r := ReplaceUnderscoreTilde(a + b), ReplaceUnderscoreTilde(a) + ReplaceUnderscoreTilde(b);
    assert |l| == |r|;
    forall k | 0 <= k < |l| ensures l[k] == r[k] {
      if k < |a| { assert (a + b)[k] == a[k]; } else { assert (a + b)[k] == b[k - |a|]; }
    }
  }

  lemma {:induction false} ReplaceUnderscoreTildeKeepsAt(s: string)
    requires '@' !in s
    ensures '@' !in ReplaceUnderscoreTilde(s)
  {
    var r := ReplaceUnderscoreTilde(s);
    forall k | 0 <= k < |r| ensures r[k] != '@' {
      assert s[k] != '@';
    }
  }

  lemma {:induction false} ReplaceUnderscoreTildeUnchanged(s: string)
    requires '_' !in s && '~' !in s
    ensures ReplaceUnderscoreTilde(s) == s
  {
  }

  /** `convertAddressFormat`: dash out underscores and tildes, split on `@`,
      and build `user.instance.ap.brid.gy` from the first two pieces; a
      missing second piece renders as "undefined", pieces after the second
      are dropped. */
  function ConvertAddressFormat(address: string): (r: string)
    ensures '@' !in r
    ensures '_' !in r && '~' !in r
    ensures EndsWith(r, BridgeSuffix)
  {
    var formatted := ReplaceUnderscoreTilde(address);
    var pieces := Split(formatted, '@');
    SplitKeepsAbsent(formatted, '@', '_');
    SplitKeepsAbsent(formatted, '@', '~');
    SplitPiecesFree(formatted, '@');
    var instance := if |pieces| > 1 then pieces[1] else Undefined;
    TemplateCharacters();
    assert '@' !in instance && '_' !in instance && '~' !in instance;
    var head := pieces[0] + "." + instance;
    assert (head + BridgeSuffix)[|head|..] == BridgeSuffix;
    head + BridgeSuffix
  }

  /** The fixed parts of a handle hold no `@`, `_` or `~`. */
  lemma {:induction false} TemplateCharacters()
    ensures '@' !in Undefined && '_' !in Undefined && '~' !in Undefined
    ensures '@' !in BridgeSuffix && '_' !in BridgeSuffix && '~' !in BridgeSuffix
  {
  }

  /** An address with exactly one `@` becomes user.instance.ap.brid.gy,
      with underscores and tildes dashed out of both parts. */
  lemma {:induction false} ConvertOneAt(user: string, instance: string)
    requires '@' !in user && '@' !in instance
    ensures ConvertAddressFormat(user + "@" + instance)
         == ReplaceUnderscoreTilde(user) + "." + ReplaceUnderscoreTilde(instance) + BridgeSuffix
  {
    var u, i := ReplaceUnderscoreTilde(user), ReplaceUnderscoreTilde(instance);
    ReplaceUnderscoreTildeAppend(user + "@", instance);
    ReplaceUnderscoreTildeAppend(user, "@");
    assert ReplaceUnderscoreTilde("@") == "@";
    ReplaceUnderscoreTildeKeepsAt(user);
    ReplaceUnderscoreTildeKeepsAt(instance);
    SplitAtFirst(u, '@', i);
    SplitWithoutSeparator(i, '@');
  }

  /** Everything from a second `@` on is dropped. */
  lemma {:induction false} ConvertDropsThirdPiece(user: string, instance: string, tail: string)
    requires '@' !in user && '@' !in instance
    ensures ConvertAddressFormat(user + "@" + instance + "@" + tail)
         == ConvertAddressFormat(user + "@" + instance)
  {
    var u, i, t := ReplaceUnderscoreTilde(user), ReplaceUnderscoreTilde(instance), ReplaceUnderscoreTilde(tail);
    ReplaceUnderscoreTildeAppend(user + "@" + instance + "@", tail);
    ReplaceUnderscoreTildeAppend(user + "@" + instance, "@");
    ReplaceUnderscoreTildeAppend(user + "@", instance);
    ReplaceUnderscoreTildeAppend(user, "@");
    assert ReplaceUnderscoreTilde("@") == "@";
    ReplaceUnderscoreTildeKeepsAt(user);
    ReplaceUnderscoreTildeKeepsAt(instance);
    assert ReplaceUnderscoreTilde(user + "@" + instance + "@" + tail) == u + "@" + (i + "@" + t);
    SplitAtFirst(u, '@', i + "@" + t);
    SplitAtFirst(i, '@', t);
    ConvertOneAt(user, instance);
  }

  /** Without any `@` the instance renders as "undefined". */
  lemma {:induction false} ConvertWithoutAt(address: string)
    requires '@' !in address
    ensures ConvertAddressFormat(address) == ReplaceUnderscoreTilde(address) + "." + Undefined + BridgeSuffix
  {
    ReplaceUnderscoreTildeKeepsAt(address);
    SplitWithoutSeparator(ReplaceUnderscoreTilde(address), '@');
  }

  /** The conversion is not idempotent: converting a converted handle again
      appends ".undefined.ap.brid.gy". */
  lemma {:induction false} ConvertTwice(address: string)
    ensures ConvertAddressFormat(ConvertAddressFormat(address))
         == ConvertAddressFormat(address) + "." + Undefined + BridgeSuffix
    ensures ConvertAddressFormat(ConvertAddressFormat(address)) != ConvertAddressFormat(address)
  {
    var once := ConvertAddressFormat(address);
    ConvertWithoutAt(once);
    ReplaceUnderscoreTildeUnchanged(once);
  }

  // ---------------------------------------------------------------------
  // Exclusion

  /** `excludeDomain`: addresses that are themselves bridged from Bluesky,
      or on Threads or bird.makeup, are not converted. */
  predicate ExcludeDomain(address: string) {
    EndsWith(address, "@bsky.brid.gy") || EndsWith(address, "@threads.net") || EndsWith(address, "@bird.makeup")
  }

  /** A row that survives the exclusion check. */
  predicate Included(address: string) {
    !ExcludeDomain(address)
  }

  /** The text after the last `@` of an address, if it has one. This is
      what the exclusion check looks at; it is not the `instance` that the
      converter takes from the second `@`-separated piece. */
  function DomainAfterLastAt(address: string): (domain: Option<string>)
    ensures domain.Some? ==> '@' in address && '@' !in domain.value
  {
    var pieces := Split(address, '@');
    SplitPiecesFree(address, '@');
    if |pieces| > 1 then Some(pieces[|pieces| - 1]) else None
  }

  /** An address ends with `@` and a domain exactly when that domain is
      the text after its last `@`. */
  lemma {:induction false} EndsWithDomain(address: string, domain: string)
    requires '@' !in domain
    ensures EndsWith(address, "@" + domain) <==> DomainAfterLastAt(address) == Some(domain)
  {
    var p := Split(address, '@');
    if EndsWith(address, "@" + domain) { EndsWithGivesLastPiece(address, '@', domain); }
    if |p| > 1 && p[|p| - 1] == domain { LastPieceGivesEndsWith(address, '@', domain); }
  }

  /** Exclusion is by domain: an address is excluded exactly when it has
      an `@` and the text after its last `@` is one of the three domains. */
  lemma {:induction false} ExcludeDomainByLastAt(address: string)
    ensures ExcludeDomain(address)
        <==> DomainAfterLastAt(address) in {Some("bsky.brid.gy"), Some("threads.net"), Some("bird.makeup")}
  {
    assert "@bsky.brid.gy" == "@" + "bsky.brid.gy";
    assert "@threads.net" == "@" + "threads.net";
    assert "@bird.makeup" == "@" + "bird.makeup";
    EndsWithDomain(address, "bsky.brid.gy");
    EndsWithDomain(address, "threads.net");
    EndsWithDomain(address, "bird.makeup");
  }

  // ---------------------------------------------------------------------
  // URLs

  /** The profile link written next to each converted address:
      `https://bsky.app/profile/${newAddress.replace('@', '')}`. */
  function ProfileUrl(newAddress: string): (url: string)
    ensures StartsWith(url, ProfileBase)
    ensures '@' !in newAddress ==> url == ProfileBase + newAddress
  {
    ProfileBase + RemoveFirst(newAddress, '@')
  }

  /** The URL `checkAccountExists` fetches: its argument with the first `@`
      removed, appended to the getProfile endpoint. */
  function LookupUrl(accountAddress: string): (url: string)
    ensures StartsWith(url, LookupBase)
    ensures '@' !in accountAddress ==> url == LookupBase + accountAddress
  {
    LookupBase + RemoveFirst(accountAddress, '@')
  }

  /** Both `replace('@', '')` calls are no-ops on a converted address. */
  lemma {:induction false} ConvertedUrls(address: string)
    ensures ProfileUrl(ConvertAddressFormat(address)) == ProfileBase + ConvertAddressFormat(address)
    ensures LookupUrl(ConvertAddressFormat(address)) == LookupBase + ConvertAddressFormat(address)
  {
  }

  /** One CSV output record: `{ 'Account address', 'Profile URL' }`. */
  datatype Account = Account(address: string, profileUrl: string)

  /** The record the row handler builds from a raw `Account address`. */
  function RowAccount(raw: string): (a: Account)
    ensures a.address == ConvertAddressFormat(raw)
    ensures a.profileUrl == ProfileBase + a.address
  {
    var newAddress := ConvertAddressFormat(raw);
    Account(newAddress, ProfileUrl(newAddress))
  }

  /** The records of all rows that survive the exclusion check, in input
      order: what `results` holds at the end of a run without `-c`. */
  function Accounts(rows: seq<string>): (accounts: seq<Account>)
    ensures |accounts| == |Filter(rows, Included)|
  {
    FilterMap(rows, Included, RowAccount)
  }

  /** One record per row that is not excluded, in input order, each with
      the converted address and its profile link. */
  lemma {:induction false} AccountsPerRow(rows: seq<string>)
    ensures forall k :: 0 <= k < |Accounts(rows)| ==>
              Accounts(rows)[k].address == ConvertAddressFormat(Filter(rows, Included)[k]) &&
              Accounts(rows)[k].profileUrl == ProfileBase + Accounts(rows)[k].address
  {
    FilterMapElements(rows, Included, RowAccount);
  }

  // ---------------------------------------------------------------------
  // Lookup outcome

  /** What `axios.get` did: resolved with a response, or rejected with an
      error whose `code` and `response.status` may be absent. */
  datatype Lookup =
    | Resolved(status: int)
    | Rejected(code: Option<string>, responseStatus: Option<int>)

  /** The decision `checkAccountExists` takes on one lookup: answer, or
      sleep the given number of milliseconds and look up again. */
  datatype Verdict = Answer(accountExists: bool) | RetryAfter(delayMs: nat)

  const ConnectionResetDelayMs: nat := 1000
  const RateLimitDelayMs: nat := 100

  /** The try/catch of `checkAccountExists`. A connection reset is retried
      after a second, a 429 after 100 ms; a 400 and every other error mean
      "does not exist"; a resolved response means "exists" iff it is 200. */
  function Classify(lookup: Lookup): (v: Verdict)
    ensures v.RetryAfter? <==>
              lookup.Rejected? && (lookup.code == Some("ECONNRESET") || lookup.responseStatus == Some(429))
    ensures v.RetryAfter? ==> v.delayMs == if lookup.code == Some("ECONNRESET") then ConnectionResetDelayMs else RateLimitDelayMs
    ensures v == Answer(true) <==> lookup == Resolved(200)
  {
    match lookup
    case Resolved(status) => Answer(status == 200)
    case Rejected(code, responseStatus) =>
      if code == Some("ECONNRESET") then RetryAfter(ConnectionResetDelayMs)
      else if responseStatus == Some(429) then RetryAfter(RateLimitDelayMs)
      else if responseStatus == Some(400) then Answer(false)
      else Answer(false)
  }

  /** The connection-reset test comes first: a reset error is retried after
      a second even when it also carries a 429 or a 400. */
  lemma {:induction false} ResetTakesPrecedence(responseStatus: Option<int>)
    ensures Classify(Rejected(Some("ECONNRESET"), responseStatus)) == RetryAfter(ConnectionResetDelayMs)
  {
  }

  /** A 429 that is not a reset is retried after 100 ms, whatever its
      code. */
  lemma {:induction false} RateLimitRetried(code: Option<string>)
    requires code != Some("ECONNRESET")
    ensures Classify(Rejected(code, Some(429))) == RetryAfter(RateLimitDelayMs)
  {
  }

  /** Every rejection that is neither a reset nor a 429, a 400 among them,
      is final and means the account does not exist. */
  lemma {:induction false} EveryOtherErrorIsAbsent(code: Option<string>, responseStatus: Option<int>)
    requires code != Some("ECONNRESET") && responseStatus != Some(429)
    ensures Classify(Rejected(code, responseStatus)) == Answer(false)
  {
  }

  /** How one call of `checkAccountExists` went, given the lookups, in
      order, that its successive recursive attempts receive: the answer it
      resolves to (None while it is still retrying when the lookups run
      out), the attempts made and the milliseconds slept between them. */
  datatype Check = Check(accountExists: Option<bool>, attempts: nat, backoffMs: nat)

  /** The milliseconds slept over a sequence of attempts: the delay of
      every one that was a retry. */
  function RetryDelays(lookups: seq<Lookup>): nat {
    if lookups == [] then 0
    else
      (match Classify(lookups[0]) case RetryAfter(d) => d case Answer(_) => 0) + RetryDelays(lookups[1..])
  }

  /** `checkAccountExists` with its recursion driven by `lookups`. */
  function CheckAccountExists(lookups: seq<Lookup>): (c: Check)
    ensures c.attempts <= |lookups|
    ensures forall k :: 0 <= k < c.attempts - 1 ==> Classify(lookups[k]).RetryAfter?
    ensures c.accountExists.None? ==> c.attempts == |lookups| && forall k :: 0 <= k < |lookups| ==> Classify(lookups[k]).RetryAfter?
    ensures c.accountExists.Some? ==> c.attempts >= 1 && Classify(lookups[c.attempts - 1]) == Answer(c.accountExists.value)
    ensures RateLimitDelayMs * (c.attempts - 1) <= c.backoffMs || c.attempts == 0
    ensures c.accountExists.None? ==> RateLimitDelayMs * c.attempts <= c.backoffMs
    ensures c.backoffMs <= ConnectionResetDelayMs * c.attempts
  {
    if lookups == [] then Check(None, 0, 0)
    else match Classify(lookups[0])
      case Answer(accountExists) => Check(Some(accountExists), 1, 0)
      case RetryAfter(delayMs) =>
        var rest := CheckAccountExists(lookups[1..]);
        Check(rest.accountExists, rest.attempts + 1, rest.backoffMs + delayMs)
  }

  /** The backoff of a check is exactly what its retries slept: the sum of
      the delays of the attempts it made. */
  lemma {:induction false} BackoffIsRetryDelays(lookups: seq<Lookup>)
    ensures CheckAccountExists(lookups).backoffMs
        == RetryDelays(lookups[..CheckAccountExists(lookups).attempts])
    decreases |lookups|
  {
    if lookups != [] {
      match Classify(lookups[0])
      case Answer(_) =>
        assert lookups[..1][1..] == [];
      case RetryAfter(_) =>
        var n := CheckAccountExists(lookups[1..]).attempts;
        BackoffIsRetryDelays(lookups[1..]);
        assert lookups[..n + 1][1..] == lookups[1..][..n];
    }
  }

  /** Once `checkAccountExists` has an answer, further lookups are never
      made: the answer does not depend on them. */
  lemma {:induction false} CheckSettledIgnoresLater(lookups: seq<Lookup>, later: seq<Lookup>)
    requires CheckAccountExists(lookups).accountExists.Some?
    ensures CheckAccountExists(lookups + later) == CheckAccountExists(lookups)
  {
    assert lookups != [];
    assert (lookups + later)[0] == lookups[0];
    if Classify(lookups[0]).RetryAfter? {
      assert (lookups + later)[1..] == lookups[1..] + later;
      CheckSettledIgnoresLater(lookups[1..], later);
    }
  }
}
