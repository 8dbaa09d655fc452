/** The string and sequence operations of JavaScript and Python that the
    scripts rely on, over `string` (a `seq<char>`). */
module Text {

  /** Number of occurrences of `c` in `s`. */
  function Count(s: string, c: char): (n: nat)
    ensures n <= |s|
    ensures n == 0 <==> c !in s
  {
    if s == [] then 0 else (if s[0] == c then 1 else 0) + Count(s[1..], c)
  }

  lemma {:induction false} CountAppend(a: string, b: string, c: char)
    ensures Count(a + b, c) == Count(a, c) + Count(b, c)
  {
    if a == [] {
      assert a + b == b;
    } else {
      assert (a + b)[1..] == a[1..] + b;
      CountAppend(a[1..], b, c);
    }
  }

  /** How often `ch` occurs in a handle `@user.instance` followed by a
      suffix: once per `@` and `.` the template adds, plus its parts. */
  lemma {:induction false} CountHandle(user: string, instance: string, suffix: string, ch: char)
    ensures Count("@" + user + "." + instance + suffix, ch)
         == (if ch == '@' then 1 else 0) + (if ch == '.' then 1 else 0)
            + Count(user, ch) + Count(instance, ch) + Count(suffix, ch)
  {
    CountAppend("@" + user + "." + instance, suffix, ch);
    CountAppend("@" + user + ".", instance, ch);
    CountAppend("@" + user, ".", ch);
    CountAppend("@", user, ch);
    assert Count(".", ch) == if ch == '.' then 1 else 0;
    assert Count("@", ch) == if ch == '@' then 1 else 0;
  }

  /** `s.startsWith(prefix)` / `s.startswith(prefix)`. */
  predicate StartsWith(s: string, prefix: string) {
    |prefix| <= |s| && s[..|prefix|] == prefix
  }

  /** `s.endsWith(suffix)` / `s.endswith(suffix)`. */
  predicate EndsWith(s: string, suffix: string) {
    |suffix| <= |s| && s[|s| - |suffix|..] == suffix
  }

  /** A concatenation ends with its second part. */
  lemma {:induction false} EndsWithConcat(a: string, b: string)
    ensures EndsWith(a + b, b)
  {
    assert (a + b)[|a|..] == b;
  }

  /** Of two suffixes of one string, the shorter is a suffix of the longer. */
  lemma {:induction false} EndsWithBoth(s: string, a: string, b: string)
    requires EndsWith(s, a) && EndsWith(s, b) && |a| <= |b|
    ensures EndsWith(b, a)
  {
    assert b[|b| - |a|..] == s[|s| - |a|..];
  }

  /** `s.split(c)` in JavaScript, and in Python with a one-character
      separator: the pieces between the occurrences of `c`. The empty
      string gives one empty piece. */
  function Split(s: string, c: char): (pieces: seq<string>)
    ensures |pieces| == Count(s, c) + 1
  {
    if s == [] then [""]
    else
      var rest := Split(s[1..], c);
      if s[0] == c then [""] + rest else [[s[0]] + rest[0]] + rest[1..]
  }

  /** No piece contains the separator. */
  lemma {:induction false} SplitPiecesFree(s: string, c: char)
    ensures forall k :: 0 <= k < |Split(s, c)| ==> c !in Split(s, c)[k]
  {
    if s != [] {
      SplitPiecesFree(s[1..], c);
    }
  }

  /** A character missing from a string is missing from each of its pieces. */
  lemma {:induction false} SplitKeepsAbsent(s: string, c: char, ch: char)
    requires ch !in s
    ensures forall k :: 0 <= k < |Split(s, c)| ==> ch !in Split(s, c)[k]
  {
    if s != [] {
      SplitKeepsAbsent(s[1..], c, ch);
    }
  }

  /** `xs.join(sep)` in JavaScript: the empty list gives "", otherwise the
      elements with `sep` between neighbours and nowhere else. */
  function Join(xs: seq<string>, sep: char): (s: string)
    ensures xs != [] ==> StartsWith(s, xs[0])
  {
    if xs == [] then ""
    else if |xs| == 1 then xs[0]
    else xs[0] + [sep] + Join(xs[1..], sep)
  }

  /** Joining after a new empty first piece puts a separator in front. */
  lemma {:induction false} JoinPrependEmpty(xs: seq<string>, c: char)
    requires xs != []
    ensures Join([""] + xs, c) == [c] + Join(xs, c)
  {
    assert ([""] + xs)[1..] == xs;
  }

  /** Joining after a character is put in front of the first piece puts
      that character in front. */
  lemma {:induction false} JoinPrependChar(h: char, xs: seq<string>, c: char)
    requires xs != []
    ensures Join([[h] + xs[0]] + xs[1..], c) == [h] + Join(xs, c)
  {
    var ys := [[h] + xs[0]] + xs[1..];
    assert ys[0] == [h] + xs[0] && ys[1..] == xs[1..];
  }

  /** Splitting a string and joining the pieces again gives the string back. */
  lemma {:induction false} JoinSplit(s: string, c: char)
    ensures Join(Split(s, c), c) == s
  {
    if s != [] {
      var rest := Split(s[1..], c);
      JoinSplit(s[1..], c);
      if s[0] == c {
        JoinPrependEmpty(rest, c);
      } else {
        JoinPrependChar(s[0], rest, c);
      }
      assert s == [s[0]] + s[1..];
    }
  }

  /** A string without the separator is one piece. */
  lemma {:induction false} SplitWithoutSeparator(s: string, c: char)
    requires c !in s
    ensures Split(s, c) == [s]
  {
    var pieces := Split(s, c);
    assert |pieces| == 1;
    JoinSplit(s, c);
  }

  /** The first piece is everything before the first separator. */
  lemma {:induction false} SplitAtFirst(u: string, c: char, rest: string)
    requires c !in u
    ensures Split(u + [c] + rest, c) == [u] + Split(rest, c)
  {
    var s := u + [c] + rest;
    if u == [] {
      assert s == [c] + rest && s[1..] == rest;
    } else {
      assert s[0] == u[0] && s[1..] == u[1..] + [c] + rest;
      SplitAtFirst(u[1..], c, rest);
      assert [u[0]] + u[1..] == u;
    }
  }

  /** The last piece is everything after the last separator. */
  lemma {:induction false} SplitAtLast(a: string, c: char, d: string)
    requires c !in d
    ensures Split(a + [c] + d, c) == Split(a, c) + [d]
  {
    var s := a + [c] + d;
    if a == [] {
      assert s == [] + [c] + d;
      SplitAtFirst([], c, d);
      SplitWithoutSeparator(d, c);
    } else {
      assert s[0] == a[0] && s[1..] == a[1..] + [c] + d;
      SplitAtLast(a[1..], c, d);
      var inner := Split(a[1..], c);
      if a[0] == c {
        assert Split(s, c) == [""] + inner + [d];
      } else {
        assert Split(s, c) == [[a[0]] + inner[0]] + inner[1..] + [d];
      }
    }
  }

  /** Joining separator-free pieces and splitting again recovers the pieces. */
  lemma {:induction false} SplitJoin(xs: seq<string>, c: char)
    requires xs != []
    requires forall k :: 0 <= k < |xs| ==> c !in xs[k]
    ensures Split(Join(xs, c), c) == xs
  {
    if |xs| == 1 {
      SplitWithoutSeparator(xs[0], c);
    } else {
      SplitJoin(xs[1..], c);
      SplitAtFirst(xs[0], c, Join(xs[1..], c));
      assert [xs[0]] + xs[1..] == xs;
    }
  }

  lemma {:induction false} JoinSnoc(xs: seq<string>, c: char, y: string)
    requires xs != []
    ensures Join(xs + [y], c) == Join(xs, c) + [c] + y
  {
    if |xs| > 1 {
      assert (xs + [y])[1..] == xs[1..] + [y];
      JoinSnoc(xs[1..], c, y);
    }
  }

  /** Ending with `c` followed by a separator-free `d` makes `d` the last
      of at least two pieces. */
  lemma {:induction false} EndsWithGivesLastPiece(s: string, c: char, d: string)
    requires c !in d
    requires EndsWith(s, [c] + d)
    ensures var p := Split(s, c); |p| > 1 && p[|p| - 1] == d
  {
    var a := s[..|s| - |d| - 1];
    assert s == a + [c] + d;
    SplitAtLast(a, c, d);
  }

  /** When `d` is the last of at least two pieces, the string ends with `c`
      followed by `d`. */
  lemma {:induction false} LastPieceGivesEndsWith(s: string, c: char, d: string)
    requires var p := Split(s, c); |p| > 1 && p[|p| - 1] == d
    ensures EndsWith(s, [c] + d)
  {
    var p := Split(s, c);
    var init := p[..|p| - 1];
    assert p == init + [d];
    JoinSplit(s, c);
    JoinSnoc(init, c, d);
    assert s == Join(init, c) + ([c] + d);
    EndsWithConcat(Join(init, c), [c] + d);
  }

  /** Leading occurrences of `c` removed. */
  function TrimStart(s: string, c: char): (r: string)
    ensures |r| <= |s| && r == s[|s| - |r|..]
    ensures r == [] || r[0] != c
    ensures forall k :: 0 <= k < |s| - |r| ==> s[k] == c
  {
    if s != [] && s[0] == c then TrimStart(s[1..], c) else s
  }

  /** Trailing occurrences of `c` removed. */
  function TrimEnd(s: string, c: char): (r: string)
    ensures |r| <= |s| && r == s[..|r|]
    ensures r == [] || r[|r| - 1] != c
    ensures forall k :: |r| <= k < |s| ==> s[k] == c
  {
    if s != [] && s[|s| - 1] == c then TrimEnd(s[..|s| - 1], c) else s
  }

  /** `s.strip(c)` in Python: every leading and every trailing `c` removed. */
  function Strip(s: string, c: char): (r: string)
    ensures r == [] || (r[0] != c && r[|r| - 1] != c)
  {
    TrimEnd(TrimStart(s, c), c)
  }

  lemma {:induction false} TrimStartSnoc(s: string, c: char)
    ensures TrimStart(s + [c], c) == if TrimStart(s, c) == [] then [] else TrimStart(s, c) + [c]
  {
    var t := s + [c];
    if s == [] {
      assert t == [c] && t[1..] == [];
    } else if s[0] == c {
      assert t[0] == c && t[1..] == s[1..] + [c];
      TrimStartSnoc(s[1..], c);
    } else {
      assert t[0] != c;
    }
  }

  /** A leading separator makes no difference to `Strip`. */
  lemma {:induction false} StripLeading(s: string, c: char)
    ensures Strip([c] + s, c) == Strip(s, c)
  {
    assert ([c] + s)[1..] == s;
  }

  /** A trailing separator makes no difference to `Strip`. */
  lemma {:induction false} StripTrailing(s: string, c: char)
    ensures Strip(s + [c], c) == Strip(s, c)
  {
    TrimStartSnoc(s, c);
    var t := TrimStart(s, c);
    if t != [] {
      var u := t + [c];
      assert TrimStart(s + [c], c) == u;
      assert u[|u| - 1] == c && u[..|u| - 1] == t;
      assert TrimEnd(u, c) == TrimEnd(t, c);
    }
  }

  /** A string that neither starts nor ends with `c` is its own `Strip`. */
  lemma {:induction false} StripUnchanged(s: string, c: char)
    requires s == [] || (s[0] != c && s[|s| - 1] != c)
    ensures Strip(s, c) == s
  {
  }

  /** Stripping `c` does not change how often any other character occurs. */
  lemma {:induction false} StripKeepsOthers(s: string, c: char, ch: char)
    requires ch != c
    ensures Count(Strip(s, c), ch) == Count(s, ch)
  {
    TrimStartKeepsOthers(s, c, ch);
    TrimEndKeepsOthers(TrimStart(s, c), c, ch);
  }

  lemma {:induction false} TrimStartKeepsOthers(s: string, c: char, ch: char)
    requires ch != c
    ensures Count(TrimStart(s, c), ch) == Count(s, ch)
  {
    if s != [] && s[0] == c {
      TrimStartKeepsOthers(s[1..], c, ch);
    }
  }

  lemma {:induction false} TrimEndKeepsOthers(s: string, c: char, ch: char)
    requires ch != c
    ensures Count(TrimEnd(s, c), ch) == Count(s, ch)
  {
    if s != [] && s[|s| - 1] == c {
      var init := s[..|s| - 1];
      assert s == init + [c];
      CountAppend(init, [c], ch);
      assert Count([c], ch) == 0;
      TrimEndKeepsOthers(init, c, ch);
    }
  }

  /** `s.replace(c, "")` in JavaScript with a string pattern: only the
      first occurrence is removed. */
  function RemoveFirst(s: string, c: char): (r: string)
    ensures c !in s ==> r == s
    ensures c in s ==> |r| == |s| - 1 && Count(r, c) == Count(s, c) - 1
  {
    if s == [] then s
    else if s[0] == c then s[1..]
    else [s[0]] + RemoveFirst(s[1..], c)
  }

  /** `s.indexOf(c)` for a present `c`: the position of its first
      occurrence. */
  function IndexOf(s: string, c: char): (i: nat)
    requires c in s
    ensures i < |s| && s[i] == c && c !in s[..i]
  {
    if s[0] == c then 0
    else
      var j := IndexOf(s[1..], c);
      assert s[..j + 1] == [s[0]] + s[1..][..j];
      j + 1
  }

  lemma {:induction false} ConcatAssoc(a: string, b: string, c: string)
    ensures a + (b + c) == (a + b) + c
  {
  }

  /** Slices of `s` just past position `j` of its tail. */
  lemma {:induction false} SlicesOfTail(s: string, j: nat)
    requires j + 1 < |s|
    ensures s[..j + 1] == [s[0]] + s[1..][..j] && s[j + 2..] == s[1..][j + 1..]
  {
  }

  /** With `c` present, `RemoveFirst` cuts out exactly the first `c`: the
      text before it, then the text after it. */
  lemma {:induction false} RemoveFirstCutsFirst(s: string, c: char)
    requires c in s
    ensures RemoveFirst(s, c) == s[..IndexOf(s, c)] + s[IndexOf(s, c) + 1..]
  {
    if s[0] == c {
      assert IndexOf(s, c) == 0 && s[..0] == [];
    } else {
      var t := s[1..];
      var j := IndexOf(t, c);
      assert IndexOf(s, c) == j + 1;
      RemoveFirstCutsFirst(t, c);
      var before, after := t[..j], t[j + 1..];
      assert RemoveFirst(s, c) == [s[0]] + (before + after);
      SlicesOfTail(s, j);
      assert s[..IndexOf(s, c)] == [s[0]] + before && s[IndexOf(s, c) + 1..] == after;
      ConcatAssoc([s[0]], before, after);
    }
  }

  /** The elements of `s` that satisfy `keep`, in their order in `s`
      (Python's `continue` on a skipped row, JavaScript's `if` around `push`). */
  function Filter<T>(s: seq<T>, keep: T -> bool): (r: seq<T>)
    ensures |r| <= |s|
  {
    if s == [] then []
    else Filter(s[..|s| - 1], keep) + (if keep(s[|s| - 1]) then [s[|s| - 1]] else [])
  }

  /** `Filter` keeps exactly the elements that satisfy `keep`. */
  lemma {:induction false} FilterMembers<T>(s: seq<T>, keep: T -> bool)
    ensures forall k :: 0 <= k < |Filter(s, keep)| ==> Filter(s, keep)[k] in s && keep(Filter(s, keep)[k])
    ensures forall k :: 0 <= k < |s| && keep(s[k]) ==> s[k] in Filter(s, keep)
  {
    if s != [] {
      var init := s[..|s| - 1];
      FilterMembers(init, keep);
      forall k | 0 <= k < |s| - 1
        ensures s[k] == init[k]
      {
      }
    }
  }

  /** `f` of every element of `s` that satisfies `keep`, in order: the
      list a loop builds when it pushes `f(x)` for every kept `x`. */
  function FilterMap<T, U>(s: seq<T>, keep: T -> bool, f: T -> U): (r: seq<U>)
    ensures |r| == |Filter(s, keep)|
  {
    if s == [] then []
    else FilterMap(s[..|s| - 1], keep, f) + (if keep(s[|s| - 1]) then [f(s[|s| - 1])] else [])
  }

  /** `FilterMap` is `f` applied to each element `Filter` keeps. */
  lemma {:induction false} FilterMapElements<T, U>(s: seq<T>, keep: T -> bool, f: T -> U)
    ensures forall k :: 0 <= k < |Filter(s, keep)| ==> FilterMap(s, keep, f)[k] == f(Filter(s, keep)[k])
  {
    if s != [] {
      FilterMapElements(s[..|s| - 1], keep, f);
    }
  }

  /** Appending one element extends `Filter` by that element when it is kept. */
  lemma {:induction false} FilterSnoc<T>(s: seq<T>, x: T, keep: T -> bool)
    ensures Filter(s + [x], keep) == Filter(s, keep) + (if keep(x) then [x] else [])
  {
    assert (s + [x])[..|s|] == s;
  }

  /** Appending one element extends `FilterMap` by its image when it is kept. */
  lemma {:induction false} FilterMapSnoc<T, U>(s: seq<T>, x: T, keep: T -> bool, f: T -> U)
    ensures FilterMap(s + [x], keep, f) == FilterMap(s, keep, f) + (if keep(x) then [f(x)] else [])
  {
    assert (s + [x])[..|s|] == s;
  }

  /** `FilterMap` distributes over concatenation. */
  lemma {:induction false} FilterMapAppend<T, U>(a: seq<T>, b: seq<T>, keep: T -> bool, f: T -> U)
    ensures FilterMap(a + b, keep, f) == FilterMap(a, keep, f) + FilterMap(b, keep, f)
  {
    if b == [] {
      assert a + b == a;
    } else {
      var init, last := b[..|b| - 1], b[|b| - 1];
      assert b == init + [last];
      assert a + b == (a + init) + [last];
      FilterMapAppend(a, init, keep, f);
      FilterMapSnoc(a + init, last, keep, f);
      FilterMapSnoc(init, last, keep, f);
    }
  }

  /** A prefix one element longer is the shorter prefix and that element. */
  lemma {:induction false} PrefixSnoc<T>(prefix: seq<T>, s: seq<T>, i: nat)
    requires i < |s|
    ensures prefix + s[..i + 1] == (prefix + s[..i]) + [s[i]]
  {
    assert s[..i + 1] == s[..i] + [s[i]];
  }
}
