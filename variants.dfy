/** How the three converters relate: the same exclusion lists but for
    bird.makeup, the same handle for a plain `user@instance`, and different
    treatment of stray `@` signs, underscores and tildes. */
module Variants {
  import opened Wrappers
  import opened Text
  import MastoToBsky
  import MastoToBskyPy
  import MastoToBskyJs

  /** The two earlier scripts skip exactly the same addresses, and every
      address they skip is skipped by mastoToBsky.js too. */
  lemma {:induction false} ExclusionNests(address: string)
    ensures MastoToBskyPy.ExcludeDomain(address) <==> MastoToBskyJs.ExcludeDomain(address)
    ensures MastoToBskyJs.ExcludeDomain(address) ==> MastoToBsky.ExcludeDomain(address)
  {
  }

  /** bird.makeup addresses are skipped only by mastoToBsky.js. */
  lemma {:induction false} BirdMakeupOnlyExcludedByLatest(address: string)
    requires EndsWith(address, "@bird.makeup")
    ensures MastoToBsky.ExcludeDomain(address)
    ensures !MastoToBskyJs.ExcludeDomain(address)
    ensures !MastoToBskyPy.ExcludeDomain(address)
  {
    if EndsWith(address, "@bsky.brid.gy") {
      EndsWithBoth(address, "@bird.makeup", "@bsky.brid.gy");
      assert false;
    }
    if EndsWith(address, "@threads.net") {
      EndsWithBoth(address, "@bird.makeup", "@threads.net");
      assert false;
    }
  }

  /** On a plain `user@instance` the Python and the earlier JavaScript
      converter agree. */
  lemma {:induction false} PlainAddressesAgree(user: string, instance: string)
    requires user != "" && instance != ""
    requires '@' !in user && '@' !in instance
    ensures MastoToBskyPy.ConvertAddressFormat(user + "@" + instance)
         == Success(MastoToBskyJs.ConvertAddressFormat(user + "@" + instance))
  {
    MastoToBskyPy.ConvertComposition(user, instance);
    MastoToBskyJs.ConvertOneAt(user, instance);
  }

  /** mastoToBsky.js gives the earlier JavaScript handle without its
      leading `@` when neither part has an underscore or a tilde. */
  lemma {:induction false} PlainAddressesAgreeWithLatest(user: string, instance: string)
    requires '@' !in user && '@' !in instance
    requires '_' !in user && '~' !in user && '_' !in instance && '~' !in instance
    ensures MastoToBskyJs.ConvertAddressFormat(user + "@" + instance)
         == "@" + MastoToBsky.ConvertAddressFormat(user + "@" + instance)
  {
    MastoToBskyJs.ConvertOneAt(user, instance);
    MastoToBsky.ConvertOneAt(user, instance);
    MastoToBsky.ReplaceUnderscoreTildeUnchanged(user);
    MastoToBsky.ReplaceUnderscoreTildeUnchanged(instance);
  }

  /** A leading `@` is stripped by the Python script only: `@u@i` gives
      `@u.i.ap.brid.gy` there and `@.u.ap.brid.gy` in JavaScript. */
  lemma {:induction false} LeadingAtDiffers(user: string, instance: string)
    requires user != "" && instance != ""
    requires '@' !in user && '@' !in instance
    ensures MastoToBskyPy.ConvertAddressFormat("@" + user + "@" + instance)
         == Success("@" + user + "." + instance + MastoToBskyPy.BridgeSuffix)
    ensures MastoToBskyJs.ConvertAddressFormat("@" + user + "@" + instance) == "@." + user + MastoToBskyJs.BridgeSuffix
    ensures MastoToBskyPy.ConvertAddressFormat("@" + user + "@" + instance)
         != Success(MastoToBskyJs.ConvertAddressFormat("@" + user + "@" + instance))
  {
    var py := "@" + user + "." + instance + MastoToBskyPy.BridgeSuffix;
    var js := "@." + user + MastoToBskyJs.BridgeSuffix;
    MastoToBskyPy.ConvertLeadingAt(user, instance);
    MastoToBskyJs.ConvertLeadingAt(user, instance);
    assert |py| != |js|;
  }

  /** Without an `@` the Python script raises where both JavaScript
      converters render the instance as "undefined". */
  lemma {:induction false} MissingInstance(address: string)
    requires '@' !in address
    ensures MastoToBskyPy.ConvertAddressFormat(address).Failure?
    ensures MastoToBskyJs.ConvertAddressFormat(address) == "@" + address + "." + MastoToBskyJs.Undefined + MastoToBskyJs.BridgeSuffix
    ensures MastoToBsky.ConvertAddressFormat(address)
         == MastoToBsky.ReplaceUnderscoreTilde(address) + "." + MastoToBsky.Undefined + MastoToBsky.BridgeSuffix
  {
    MastoToBskyPy.ConvertWithoutAt(address);
    MastoToBskyJs.ConvertWithoutAt(address);
    MastoToBsky.ConvertWithoutAt(address);
  }
}
