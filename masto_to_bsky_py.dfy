/** masto-to-bsky.py: convert the `Account address` column of a Mastodon
    export into bridged Bluesky handles `@user.instance.ap.brid.gy`, one
    per output row after an `Account address` header; bridge domains are
    skipped, and an address that is not `user@instance` once outer `@`s
    are stripped raises ValueError. */
module MastoToBskyPy {
  import opened Wrappers
  import opened Text

  const BridgeSuffix := ".ap.brid.gy"
  const Header := "Account address"

  /** The ValueError of the two-name unpacking, with the number of pieces
      `split('@')` actually produced. */
  datatype ValueError = UnpackError(pieces: nat)

  /** `convert_address_format`: strip every leading and trailing `@`, split
      on `@` into exactly a username and an instance, and return
      `@username.instance.ap.brid.gy`. */
  function ConvertAddressFormat(address: string): (r: Result<string, ValueError>)
    ensures r.Failure? <==> Count(Strip(address, '@'), '@') != 1
    ensures r.Failure? ==> r.error.pieces != 2
    ensures r.Success? ==> StartsWith(r.value, "@") && EndsWith(r.value, BridgeSuffix)
  {
    var pieces := Split(Strip(address, '@'), '@');
    if |pieces| != 2 then Failure(UnpackError(|pieces|))
    else
      var head := "@" + pieces[0] + "." + pieces[1];
      assert (head + BridgeSuffix)[|head|..] == BridgeSuffix;
      Success(head + BridgeSuffix)
  }

  /** Every converted address contains exactly one `@`. */
  lemma {:induction false} ConvertShape(address: string)
    requires ConvertAddressFormat(address).Success?
    ensures Count(ConvertAddressFormat(address).value, '@') == 1
  {
    var pieces := Split(Strip(address, '@'), '@');
    SplitPiecesFree(Strip(address, '@'), '@');
    CountHandle(pieces[0], pieces[1], BridgeSuffix, '@');
  }

  /** An address with one `@` between a non-empty username and instance
      converts to `@username.instance.ap.brid.gy`, characters unchanged. */
  lemma {:induction false} ConvertComposition(user: string, instance: string)
    requires user != "" && instance != ""
    requires '@' !in user && '@' !in instance
    ensures ConvertAddressFormat(user + "@" + instance) == Success("@" + user + "." + instance + BridgeSuffix)
  {
    var s := user + "@" + instance;
    assert s[0] == user[0] && s[|s| - 1] == instance[|instance| - 1];
    StripUnchanged(s, '@');
    SplitAtFirst(user, '@', instance);
    SplitWithoutSeparator(instance, '@');
  }

  /** The bridge suffix has no underscore or tilde. */
  lemma {:induction false} SuffixHasNoUnderscoreTilde(ch: char)
    requires ch == '_' || ch == '~'
    ensures Count(BridgeSuffix, ch) == 0
  {
    assert ch !in BridgeSuffix;
  }

  /** Underscores and tildes are kept: no character is substituted. */
  lemma {:induction false} ConvertKeepsUnderscoreTilde(address: string, ch: char)
    requires ch == '_' || ch == '~'
    requires ConvertAddressFormat(address).Success?
    ensures Count(ConvertAddressFormat(address).value, ch) == Count(address, ch)
  {
    var s := Strip(address, '@');
    var pieces := Split(s, '@');
    var user, instance := pieces[0], pieces[1];
    assert Count(s, ch) == Count(user, ch) + Count(instance, ch) by {
      JoinSplit(s, '@');
      assert s == user + "@" + instance;
      CountAppend(user + "@", instance, ch);
      CountAppend(user, "@", ch);
    }
    StripKeepsOthers(address, '@', ch);
    assert ConvertAddressFormat(address).value == "@" + user + "." + instance + BridgeSuffix;
    CountHandle(user, instance, BridgeSuffix, ch);
    SuffixHasNoUnderscoreTilde(ch);
  }

  /** Outer `@`s make no difference: `@u@i` converts like `u@i`, and so
      does `u@i@`. */
  lemma {:induction false} ConvertIgnoresOuterAt(address: string)
    ensures ConvertAddressFormat("@" + address) == ConvertAddressFormat(address)
    ensures ConvertAddressFormat(address + "@") == ConvertAddressFormat(address)
  {
    StripLeading(address, '@');
    StripTrailing(address, '@');
  }

  /** A leading `@` is stripped: `@user@instance` converts like
      `user@instance`. */
  lemma {:induction false} ConvertLeadingAt(user: string, instance: string)
    requires user != "" && instance != ""
    requires '@' !in user && '@' !in instance
    ensures ConvertAddressFormat("@" + user + "@" + instance) == Success("@" + user + "." + instance + BridgeSuffix)
  {
    var plain := user + "@" + instance;
    assert ConvertAddressFormat("@" + user + "@" + instance) == ConvertAddressFormat(plain) by {
      assert "@" + user + "@" + instance == "@" + plain;
      ConvertIgnoresOuterAt(plain);
    }
    ConvertComposition(user, instance);
  }

  /** An address without any `@` is one piece and raises. */
  lemma {:induction false} ConvertWithoutAt(address: string)
    requires '@' !in address
    ensures ConvertAddressFormat(address) == Failure(UnpackError(1))
  {
    StripUnchanged(address, '@');
    SplitWithoutSeparator(address, '@');
  }

  /** `exclude_domain`: Bluesky-bridged and Threads addresses are skipped. */
  predicate ExcludeDomain(address: string) {
    EndsWith(address, "@bsky.brid.gy") || EndsWith(address, "@threads.net")
  }

  predicate Included(address: string) {
    !ExcludeDomain(address)
  }

  /** What the loop over the reader's rows has written after the header, and the
      ValueError that ended it, if one did. */
  datatype Written = Written(rows: seq<string>, error: Option<ValueError>)

  /** One pass of the loop body: skip an excluded row, otherwise convert it
      and write it, or raise. Nothing happens once an error was raised. */
  function Step(before: Written, raw: string): (after: Written)
    ensures before.error.Some? ==> after == before
    ensures ExcludeDomain(raw) ==> after == before
    ensures |after.rows| <= |before.rows| + 1
  {
    if before.error.Some? || ExcludeDomain(raw) then before
    else match ConvertAddressFormat(raw)
      case Failure(e) => Written(before.rows, Some(e))
      case Success(v) => Written(before.rows + [v], None)
  }

  /** The loop over `rows` as a function: excluded rows are skipped, the
      others converted and written, until a conversion raises. */
  function WrittenRows(rows: seq<string>): (w: Written)
    ensures |w.rows| <= |rows|
  {
    if rows == [] then Written([], None)
    else Step(WrittenRows(rows[..|rows| - 1]), rows[|rows| - 1])
  }

  /** After a ValueError nothing more is written. */
  lemma {:induction false} WrittenStopsAtError(rows: seq<string>, i: nat)
    requires i <= |rows| && WrittenRows(rows[..i]).error.Some?
    ensures WrittenRows(rows) == WrittenRows(rows[..i])
  {
    if i < |rows| {
      assert rows[..|rows| - 1][..i] == rows[..i];
      WrittenStopsAtError(rows[..|rows| - 1], i);
    } else {
      assert rows[..i] == rows;
    }
  }

  /** One more row of input is one more pass of the loop body. */
  lemma {:induction false} WrittenRowsPrefix(rows: seq<string>, i: nat)
    requires i < |rows|
    ensures WrittenRows(rows[..i + 1]) == Step(WrittenRows(rows[..i]), rows[i])
  {
    assert rows[..i + 1][..i] == rows[..i];
  }

  /** The script's CSV output: the header row, then one converted address
      per row that is not excluded, in input order; a ValueError stops the
      loop and is returned. */
  method WriteOutput(rows: seq<string>) returns (out: seq<string>, error: Option<ValueError>)
    ensures out == [Header] + WrittenRows(rows).rows
    ensures error == WrittenRows(rows).error
  {
    out := [Header];
    error := None;
    ghost var written := Written([], None);
    for i := 0 to |rows|
      invariant written == WrittenRows(rows[..i]) && written.error == None
      invariant out == [Header] + written.rows
    {
      var raw := rows[i];
      WrittenRowsPrefix(rows, i);
      if ExcludeDomain(raw) {
        continue;
      }
      match ConvertAddressFormat(raw)
      case Failure(e) =>
        error := Some(e);
        written := Step(written, raw);
        WrittenStopsAtError(rows, i + 1);
        return;
      case Success(newAddress) =>
        out := out + [newAddress];
        written := Step(written, raw);
    }
    assert rows[..|rows|] == rows;
  }

  /** Excluded rows play no part: they are skipped before conversion, so
      they can never raise. */
  lemma {:induction false} WrittenIgnoresExcluded(rows: seq<string>)
    ensures WrittenRows(rows) == WrittenRows(Filter(rows, Included))
  {
    if rows != [] {
      var init, raw := rows[..|rows| - 1], rows[|rows| - 1];
      var kept := Filter(init, Included);
      assert WrittenRows(rows) == Step(WrittenRows(init), raw);
      assert Filter(rows, Included) == kept + (if Included(raw) then [raw] else []);
      WrittenIgnoresExcluded(init);
      if Included(raw) {
        var k := kept + [raw];
        assert k[..|k| - 1] == kept && k[|k| - 1] == raw;
        assert WrittenRows(k) == Step(WrittenRows(kept), raw);
      } else {
        assert kept + [] == kept;
      }
    }
  }

  /** A ValueError is raised exactly when some row that is not excluded
      fails to convert. */
  lemma {:induction false} WrittenErrorIff(rows: seq<string>)
    ensures WrittenRows(rows).error.Some? <==>
            exists k :: 0 <= k < |rows| && Included(rows[k]) && ConvertAddressFormat(rows[k]).Failure?
  {
    if rows != [] {
      var init, raw := rows[..|rows| - 1], rows[|rows| - 1];
      WrittenErrorIff(init);
      if WrittenRows(init).error.Some? {
        var k :| 0 <= k < |init| && Included(init[k]) && ConvertAddressFormat(init[k]).Failure?;
        assert rows[k] == init[k];
      } else {
        forall k | 0 <= k < |rows| - 1 ensures !(Included(rows[k]) && ConvertAddressFormat(rows[k]).Failure?) {
          assert rows[k] == init[k];
        }
      }
    }
  }

  /** `written` holds, position by position, the conversion of `kept`. */
  predicate ConvertsTo(kept: seq<string>, written: seq<string>) {
    |written| == |kept| &&
    forall k :: 0 <= k < |kept| ==> ConvertAddressFormat(kept[k]) == Success(written[k])
  }

  lemma {:induction false} ConvertsToSnoc(kept: seq<string>, written: seq<string>, raw: string, v: string)
    requires ConvertsTo(kept, written) && ConvertAddressFormat(raw) == Success(v)
    ensures ConvertsTo(kept + [raw], written + [v])
  {
    var k2, w2 := kept + [raw], written + [v];
    forall k | 0 <= k < |k2| ensures ConvertAddressFormat(k2[k]) == Success(w2[k]) {
      if k < |kept| {
        assert k2[k] == kept[k] && w2[k] == written[k];
      }
    }
  }

  /** When no row raises, one converted address is written per row that is
      not excluded, in input order. */
  lemma {:induction false} WrittenWithoutError(rows: seq<string>)
    requires WrittenRows(rows).error.None?
    ensures ConvertsTo(Filter(rows, Included), WrittenRows(rows).rows)
  {
    if rows != [] {
      var init, raw := rows[..|rows| - 1], rows[|rows| - 1];
      var before := WrittenRows(init);
      assert WrittenRows(rows) == Step(before, raw);
      assert before.error.None?;
      WrittenWithoutError(init);
      if Included(raw) {
        assert Filter(rows, Included) == Filter(init, Included) + [raw];
        var v := ConvertAddressFormat(raw).value;
        assert WrittenRows(rows).rows == before.rows + [v];
        ConvertsToSnoc(Filter(init, Included), before.rows, raw, v);
      } else {
        assert Filter(rows, Included) == Filter(init, Included);
      }
    }
  }
}
