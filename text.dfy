/**
 * The pieces of Rust's string library the template codec relies on, written out:
 * `str::split('\n')`, `str::splitn(n, "\n")`, `str::lines()` and joining lines
 * back together with '\n'.
 */
module Text {

  /** Index of the first occurrence of `x` in `s`, or `|s|` when there is none. */
  function IndexOf<T(==)>(s: seq<T>, x: T): (i: nat)
    ensures i <= |s|
    ensures i < |s| ==> s[i] == x
    ensures forall j :: 0 <= j < i ==> s[j] != x
  {
    if |s| == 0 then 0 else if s[0] == x then 0 else 1 + IndexOf(s[1..], x)
  }

  lemma IndexOfAfter<T>(a: seq<T>, x: T, b: seq<T>)
    requires x !in a
    ensures IndexOf(a + [x] + b, x) == |a|
  {
    var s := a + [x] + b;
    assert s[|a|] == x;
    assert forall j :: 0 <= j < |a| ==> s[j] == a[j] && a[j] in a;
  }

  /** Nothing before the first occurrence is `x`. */
  lemma IndexOfPrefix<T>(s: seq<T>, x: T)
    ensures x !in s[..IndexOf(s, x)]
  {
    var i := IndexOf(s, x);
    assert forall k :: 0 <= k < i ==> s[..i][k] == s[k];
  }

  lemma IndexOfAbsent<T>(s: seq<T>, x: T)
    requires x !in s
    ensures IndexOf(s, x) == |s|
  {
    assert forall j :: 0 <= j < |s| ==> s[j] in s;
  }

  /** The pieces of `s` between '\n' characters, as Rust's `s.split('\n')`: never empty. */
  function Split(s: string): (r: seq<string>)
    ensures |r| >= 1
    decreases |s|
  {
    var i := IndexOf(s, '\n');
    if i == |s| then [s] else [s[..i]] + Split(s[i + 1..])
  }

  /** `ls` joined with '\n' between consecutive elements. */
  function Join(ls: seq<string>): string {
    if |ls| == 0 then ""
    else if |ls| == 1 then ls[0]
    else ls[0] + "\n" + Join(ls[1..])
  }

  /** Every piece of `Split(s)` is free of '\n', and joining the pieces gives `s` back. */
  lemma {:induction false} SplitJoin(s: string)
    ensures |Split(s)| >= 1
    ensures forall p :: p in Split(s) ==> '\n' !in p
    ensures Join(Split(s)) == s
    decreases |s|
  {
    var i := IndexOf(s, '\n');
    var r := Split(s);
    if i == |s| {
      assert r == [s];
    } else {
      var rest := s[i + 1..];
      var tail := Split(rest);
      SplitJoin(rest);
      assert r == [s[..i]] + tail;
      assert r[1..] == tail;
      assert Join(r) == s[..i] + "\n" + Join(tail);
      assert s == s[..i] + "\n" + rest;
      assert '\n' !in s[..i];
      forall p | p in r ensures '\n' !in p {
        if p != s[..i] {
          assert p in tail;
        }
      }
    }
  }

  /** A character absent from `s` is absent from every piece of `Split(s)`. */
  lemma {:induction false} SplitKeepsAbsent(s: string, c: char)
    requires c !in s
    ensures forall p :: p in Split(s) ==> c !in p
    decreases |s|
  {
    var i := IndexOf(s, '\n');
    if i < |s| {
      var rest := s[i + 1..];
      assert forall k :: 0 <= k < |rest| ==> rest[k] == s[i + 1 + k];
      SplitKeepsAbsent(rest, c);
      assert Split(s) == [s[..i]] + Split(rest);
      assert forall k :: 0 <= k < i ==> s[..i][k] == s[k];
    }
  }

  /** A line put in front of others is followed by a '\n'. */
  lemma JoinCons(l: string, ls: seq<string>)
    requires |ls| >= 1
    ensures Join([l] + ls) == l + "\n" + Join(ls)
  {
    assert ([l] + ls)[1..] == ls;
  }

  lemma {:induction false} JoinConcat(xs: seq<string>, ys: seq<string>)
    requires |xs| >= 1 && |ys| >= 1
    ensures Join(xs + ys) == Join(xs) + "\n" + Join(ys)
    decreases |xs|
  {
    if |xs| == 1 {
      assert xs + ys == [xs[0]] + ys;
      assert (xs + ys)[1..] == ys;
    } else {
      JoinConcat(xs[1..], ys);
      assert (xs + ys)[1..] == xs[1..] + ys;
    }
  }

  /** Joining more lines extends the text by a '\n' and the new line. */
  lemma JoinSnoc(xs: seq<string>, l: string)
    requires |xs| >= 1
    ensures Join(xs + [l]) == Join(xs) + "\n" + l
  {
    JoinConcat(xs, [l]);
  }

  /** Splitting newline-free lines joined with '\n' gives the lines back. */
  lemma {:induction false} JoinSplit(ls: seq<string>)
    requires |ls| >= 1
    requires forall l :: l in ls ==> '\n' !in l
    ensures Split(Join(ls)) == ls
    decreases |ls|
  {
    if |ls| == 1 {
      IndexOfAbsent(ls[0], '\n');
    } else {
      var rest := Join(ls[1..]);
      IndexOfAfter(ls[0], '\n', rest);
      var s := ls[0] + "\n" + rest;
      assert s[..|ls[0]|] == ls[0];
      assert s[|ls[0]| + 1..] == rest;
      JoinSplit(ls[1..]);
      assert ls == [ls[0]] + ls[1..];
    }
  }

  /** One more separating '\n' splits into the pieces of both sides. */
  lemma SplitAppend(a: string, b: string)
    ensures Split(a + "\n" + b) == Split(a) + Split(b)
  {
    SplitJoin(a);
    SplitJoin(b);
    JoinConcat(Split(a), Split(b));
    JoinSplit(Split(a) + Split(b));
  }

  /** A line without '\n' between two others is one piece between their pieces. */
  lemma SplitAround(a: string, m: string, b: string)
    requires '\n' !in m
    ensures Split(a + "\n" + m + "\n" + b) == Split(a) + [m] + Split(b)
  {
    var inner := m + "\n" + b;
    assert a + "\n" + m + "\n" + b == a + "\n" + inner;
    SplitAppend(a, inner);
    SplitAppend(m, b);
    IndexOfAbsent(m, '\n');
    assert Split(m) == [m];
    assert Split(a) + ([m] + Split(b)) == Split(a) + [m] + Split(b);
  }

  /** Rust's `str::lines()` drops one trailing '\r' of each line. */
  function StripCr(l: string): string {
    if |l| > 0 && l[|l| - 1] == '\r' then l[..|l| - 1] else l
  }

  /**
   * Rust's `str::lines()`: the '\n'-separated pieces, without a final empty piece
   * (so the last line ending is optional), each with a trailing '\r' removed.
   */
  function Lines(s: string): (r: seq<string>) {
    var pieces := Split(s);
    var kept := if pieces[|pieces| - 1] == "" then pieces[..|pieces| - 1] else pieces;
    seq(|kept|, i requires 0 <= i < |kept| => StripCr(kept[i]))
  }

  lemma StripCrKeepsAbsent(l: string, c: char)
    requires c !in l
    ensures c !in StripCr(l)
  {
    if |l| > 0 && l[|l| - 1] == '\r' {
      assert l == StripCr(l) + [l[|l| - 1]];
    }
  }

  /** No line contains '\n', and the empty text has no lines. */
  lemma LinesValues(s: string)
    ensures forall l :: l in Lines(s) ==> '\n' !in l
    ensures Lines("") == []
  {
    SplitJoin(s);
    var pieces := Split(s);
    var kept := if pieces[|pieces| - 1] == "" then pieces[..|pieces| - 1] else pieces;
    var r := Lines(s);
    assert |r| == |kept|;
    forall i | 0 <= i < |r| ensures '\n' !in r[i] {
      assert kept[i] == pieces[i];
      assert pieces[i] in pieces;
      StripCrKeepsAbsent(kept[i], '\n');
      assert r[i] == StripCr(kept[i]);
    }
    LinesEmpty();
  }

  lemma LinesEmpty()
    ensures Lines("") == []
  {
    IndexOfAbsent("", '\n');
    assert Split("") == [""];
  }

  /** A text without '\r' whose last line is terminated reads back as its pieces. */
  lemma LinesTerminated(s: string)
    requires '\r' !in s
    ensures Lines(s + "\n") == Split(s)
  {
    SplitAppend(s, "");
    assert s + "\n" + "" == s + "\n";
    IndexOfAbsent("", '\n');
    assert Split("") == [""];
    var pieces := Split(s + "\n");
    SplitJoin(s);
    assert pieces[..|pieces| - 1] == Split(s);
    SplitKeepsAbsent(s, '\r');
    forall i | 0 <= i < |Split(s)| ensures StripCr(Split(s)[i]) == Split(s)[i] {
      assert Split(s)[i] in Split(s);
    }
  }

  /**
   * Rust's `s.splitn(n, "\n")`: at most `n` pieces, the last one holding the rest of
   * the text, '\n' characters and all.
   */
  function SplitN(s: string, n: nat): (r: seq<string>)
    requires n >= 1
    ensures 1 <= |r| <= n
    decreases n
  {
    if n == 1 then [s]
    else
      var i := IndexOf(s, '\n');
      if i == |s| then [s] else [s[..i]] + SplitN(s[i + 1..], n - 1)
  }

  /** `splitn` yields one piece more than there are '\n' characters, up to `n`. */
  lemma {:induction false} SplitNCount(s: string, n: nat)
    requires n >= 1
    ensures var count := multiset(s)['\n'];
      |SplitN(s, n)| == if count + 1 < n then count + 1 else n
    decreases n
  {
    var i := IndexOf(s, '\n');
    if n == 1 {
      SplitNWhole(s, n);
    } else if i == |s| {
      SplitNWhole(s, n);
      assert '\n' !in s;
      assert multiset(s)['\n'] == 0;
    } else {
      var rest := s[i + 1..];
      SplitNCount(rest, n - 1);
      SplitNCountStep(s, n, i, rest);
    }
  }

  /** The inductive step of `SplitNCount`: the cut takes one '\n' and yields one piece. */
  lemma SplitNCountStep(s: string, n: nat, i: nat, rest: string)
    requires n >= 2 && i == IndexOf(s, '\n') && i < |s| && rest == s[i + 1..]
    requires var count := multiset(rest)['\n'];
      |SplitN(rest, n - 1)| == if count + 1 < n - 1 then count + 1 else n - 1
    ensures var count := multiset(s)['\n'];
      |SplitN(s, n)| == if count + 1 < n then count + 1 else n
  {
    NewlineCountAt(s, i);
    SplitNStep(s, n);
  }

  /** Cutting a text at its first '\n' leaves one '\n' fewer after the cut. */
  lemma NewlineCountAt(s: string, i: nat)
    requires i < |s| && s[i] == '\n' && '\n' !in s[..i]
    ensures multiset(s)['\n'] == multiset(s[i + 1..])['\n'] + 1
  {
    assert s == s[..i] + [s[i]] + s[i + 1..];
    assert multiset(s) == multiset(s[..i]) + multiset([s[i]]) + multiset(s[i + 1..]);
    assert multiset(s[..i])['\n'] == 0;
  }

  /** `splitn` cuts the text at its first '\n' while more than one piece is wanted. */
  lemma SplitNFirst(a: string, b: string, n: nat)
    requires '\n' !in a && n >= 2
    ensures SplitN(a + "\n" + b, n) == [a] + SplitN(b, n - 1)
  {
    var s := a + "\n" + b;
    IndexOfAfter(a, '\n', b);
    assert s[..|a|] == a;
    assert s[|a| + 1..] == b;
  }

  /** Cutting at the first '\n': the text is the first piece, a '\n' and the rest. */
  lemma SplitNStep(s: string, n: nat)
    requires n >= 2 && IndexOf(s, '\n') < |s|
    ensures var i := IndexOf(s, '\n');
      SplitN(s, n) == [s[..i]] + SplitN(s[i + 1..], n - 1) && s == s[..i] + "\n" + s[i + 1..]
  {
  }

  /** `splitn` loses nothing: joining its pieces gives the text back. */
  lemma {:induction false} SplitNJoin(s: string, n: nat)
    requires n >= 1
    ensures Join(SplitN(s, n)) == s
    decreases n
  {
    var i := IndexOf(s, '\n');
    if n == 1 || i == |s| {
      SplitNWhole(s, n);
    } else {
      var rest := s[i + 1..];
      SplitNJoin(rest, n - 1);
      SplitNJoinStep(s, n, i, rest);
    }
  }

  /** With one piece wanted, or no '\n' to cut at, `splitn` gives the whole text. */
  lemma SplitNWhole(s: string, n: nat)
    requires n == 1 || (n >= 1 && IndexOf(s, '\n') == |s|)
    ensures SplitN(s, n) == [s] && Join(SplitN(s, n)) == s
  {
    assert Join([s]) == s;
  }

  /** The inductive step of `SplitNJoin`: the first piece, a '\n' and the joined rest. */
  lemma SplitNJoinStep(s: string, n: nat, i: nat, rest: string)
    requires n >= 2 && i == IndexOf(s, '\n') && i < |s| && rest == s[i + 1..]
    requires Join(SplitN(rest, n - 1)) == rest
    ensures Join(SplitN(s, n)) == s
  {
    var first := s[..i];
    var tail := SplitN(rest, n - 1);
    SplitNStep(s, n);
    JoinCons(first, tail);
    calc {
      Join(SplitN(s, n));
      Join([first] + tail);
      first + "\n" + Join(tail);
      first + "\n" + rest;
      s;
    }
  }

  /** Every piece of `splitn` but the last, and the last too when fewer than `n` came out, is free of '\n'. */
  lemma {:induction false} SplitNPieces(s: string, n: nat)
    requires n >= 1
    ensures PiecesFree(SplitN(s, n), n)
    decreases n
  {
    var i := IndexOf(s, '\n');
    if n == 1 {
      SplitNWhole(s, n);
    } else if i == |s| {
      SplitNWhole(s, n);
      assert '\n' !in s;
    } else {
      var rest := s[i + 1..];
      SplitNPieces(rest, n - 1);
      SplitNPiecesStep(s, n, i, rest);
    }
  }

  /**
   * Every piece but the last is free of '\n', and so is the last one when fewer than
   * `n` pieces came out.
   */
  predicate PiecesFree(r: seq<string>, n: nat) {
    (forall j :: 0 <= j < |r| - 1 ==> '\n' !in r[j]) &&
    (0 < |r| < n ==> '\n' !in r[|r| - 1])
  }

  /** The inductive step of `SplitNPieces`: the first piece ends before the first '\n'. */
  lemma SplitNPiecesStep(s: string, n: nat, i: nat, rest: string)
    requires n >= 2 && i == IndexOf(s, '\n') && i < |s| && rest == s[i + 1..]
    requires PiecesFree(SplitN(rest, n - 1), n - 1)
    ensures PiecesFree(SplitN(s, n), n)
  {
    var first, tail := s[..i], SplitN(rest, n - 1);
    SplitNStep(s, n);
    IndexOfPrefix(s, '\n');
    var r := SplitN(s, n);
    assert r == [first] + tail;
    forall j | 0 <= j < |r| - 1 ensures '\n' !in r[j] {
      if j == 0 {
        assert r[0] == first;
      } else {
        assert r[j] == tail[j - 1];
      }
    }
    if |r| < n {
      assert r[|r| - 1] == tail[|tail| - 1];
    }
  }
}
