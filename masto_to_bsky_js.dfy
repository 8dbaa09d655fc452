/** masto-to-bsky.js: the earlier JavaScript converter. It splits the
    `Account address` on `@` without stripping, builds
    `@user.instance.ap.brid.gy` from the first two pieces, and collects one
    record per row whose address is not on a bridge or Threads domain. */
module MastoToBskyJs {
  import opened Text

  const BridgeSuffix := ".ap.brid.gy"
  /** How a template literal renders a missing destructured piece. */
  const Undefined := "undefined"

  /** `convertAddressFormat`: `const [username, instance] = address.split('@')`
      and the template `@${username}.${instance}.ap.brid.gy`. The first
      piece always exists; the second renders as "undefined" when there is
      no `@`; further pieces are ignored. */
  function ConvertAddressFormat(address: string): (r: string)
    ensures StartsWith(r, "@") && EndsWith(r, BridgeSuffix)
  {
    var pieces := Split(address, '@');
    var instance := if |pieces| > 1 then pieces[1] else Undefined;
    var head := "@" + pieces[0] + "." + instance;
    assert (head + BridgeSuffix)[|head|..] == BridgeSuffix;
    head + BridgeSuffix
  }

  /** The output always holds exactly one `@`, the one it starts with. */
  lemma {:induction false} ConvertShape(address: string)
    ensures Count(ConvertAddressFormat(address), '@') == 1
  {
    var pieces := Split(address, '@');
    var instance := if |pieces| > 1 then pieces[1] else Undefined;
    SplitPiecesFree(address, '@');
    assert '@' !in instance by { NoAtInTemplate(); }
    HandleHasOneAt(pieces[0], instance);
  }

  lemma {:induction false} HandleHasOneAt(user: string, instance: string)
    requires '@' !in user && '@' !in instance
    ensures Count("@" + user + "." + instance + BridgeSuffix, '@') == 1
  {
    CountHandle(user, instance, BridgeSuffix, '@');
    NoAtInTemplate();
  }

  /** Neither the suffix nor "undefined" holds an `@`. */
  lemma {:induction false} NoAtInTemplate()
    ensures Count(BridgeSuffix, '@') == 0 && Count(Undefined, '@') == 0
  {
    assert '@' !in BridgeSuffix && '@' !in Undefined;
  }

  /** The username is everything before the first `@` and the instance
      runs from there to the next `@`, if any; the rest is dropped. */
  lemma {:induction false} ConvertComposition(user: string, rest: string)
    requires '@' !in user
    ensures ConvertAddressFormat(user + "@" + rest) == "@" + user + "." + Split(rest, '@')[0] + BridgeSuffix
  {
    SplitAtFirst(user, '@', rest);
  }

  /** With exactly one `@` both sides are copied unchanged. */
  lemma {:induction false} ConvertOneAt(user: string, instance: string)
    requires '@' !in user && '@' !in instance
    ensures ConvertAddressFormat(user + "@" + instance) == "@" + user + "." + instance + BridgeSuffix
  {
    ConvertComposition(user, instance);
    SplitWithoutSeparator(instance, '@');
  }

  /** An address without `@` does not fail: its instance is "undefined". */
  lemma {:induction false} ConvertWithoutAt(address: string)
    requires '@' !in address
    ensures ConvertAddressFormat(address) == "@" + address + "." + Undefined + BridgeSuffix
  {
    SplitWithoutSeparator(address, '@');
  }

  /** Nothing is stripped: a leading `@` leaves an empty username and
      shifts the pieces, so `@x@y` becomes `@.x.ap.brid.gy`. */
  lemma {:induction false} ConvertLeadingAt(user: string, rest: string)
    requires '@' !in user
    ensures ConvertAddressFormat("@" + user + "@" + rest) == "@." + user + BridgeSuffix
  {
    var tail := user + "@" + rest;
    assert ConvertAddressFormat("@" + user + "@" + rest) == "@" + "" + "." + Split(tail, '@')[0] + BridgeSuffix by {
      assert "@" + user + "@" + rest == "" + "@" + tail;
      ConvertComposition("", tail);
    }
    assert Split(tail, '@')[0] == user by {
      SplitAtFirst(user, '@', rest);
    }
    assert "@" + "" + "." + user == "@." + user;
  }

  /** `excludeDomain`: Bluesky-bridged and Threads addresses are skipped;
      bird.makeup is not excluded in this script. */
  predicate ExcludeDomain(address: string) {
    EndsWith(address, "@bsky.brid.gy") || EndsWith(address, "@threads.net")
  }

  predicate Included(address: string) {
    !ExcludeDomain(address)
  }

  /** The script's `results` array, filled by the `data` handler. */
  class Conversion {
    /** The `Account address` of each record pushed so far. */
    var results: seq<string>
    /** The `Account address` of every row delivered so far, in order. */
    ghost var rows: seq<string>

    /** One converted record per row that is not excluded, in row order. */
    ghost predicate Valid()
      reads this
    {
      results == FilterMap(rows, Included, ConvertAddressFormat)
    }

    constructor ()
      ensures Valid() && results == [] && rows == []
    {
      results := [];
      rows := [];
    }

    /** The `data` handler of the CSV stream for one row. */
    method OnRow(raw: string)
      requires Valid()
      modifies this
      ensures Valid() && rows == old(rows) + [raw]
      ensures results == old(results) + (if ExcludeDomain(raw) then [] else [ConvertAddressFormat(raw)])
    {
      if !ExcludeDomain(raw) {
        var newAddress := ConvertAddressFormat(raw);
        results := results + [newAddress];
      }
      FilterMapSnoc(rows, raw, Included, ConvertAddressFormat);
      rows := rows + [raw];
    }
  }

  /** The whole CSV stream fed through the `data` handler: `results` then
      holds the conversion of every row that is not excluded, in row order,
      and nothing for an excluded row. */
  method CollectResults(input: seq<string>) returns (results: seq<string>)
    ensures results == FilterMap(input, Included, ConvertAddressFormat)
    ensures |results| == |Filter(input, Included)|
    ensures forall k :: 0 <= k < |results| ==> StartsWith(results[k], "@") && EndsWith(results[k], BridgeSuffix)
  {
    var conversion := new Conversion();
    for i := 0 to |input|
      invariant conversion.Valid() && conversion.rows == input[..i]
    {
      conversion.OnRow(input[i]);
      assert input[..i + 1] == input[..i] + [input[i]];
    }
    assert input[..|input|] == input;
    results := conversion.results;
    FilterMapElements(input, Included, ConvertAddressFormat);
  }
}
