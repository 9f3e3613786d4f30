/** The optional value returned by a search that may find nothing. */
module Wrappers {
  datatype Option<+T> = None | Some(value: T)
}

/**
 The string operations the two tools rely on, with Python's meaning:
 substring search (`sub in s`), `s.split(sep)` and the code-point order
 that `sorted` uses on names.
 */
module Text {
  import opened Wrappers

  /** `sub` occurs in `s` starting at index `i`. */
  ghost predicate Occurs(s: string, sub: string, i: int) {
    0 <= i && i + |sub| <= |s| && s[i..i + |sub|] == sub
  }

  /** The index of the first occurrence of `sub` in `s`, if there is one. */
  function IndexOf(s: string, sub: string): (r: Option<nat>)
    ensures r.Some? ==> Occurs(s, sub, r.value)
    ensures r.Some? ==> forall j :: 0 <= j < r.value ==> !Occurs(s, sub, j)
    ensures r.None? ==> forall j :: !Occurs(s, sub, j)
    decreases |s|
  {
    if |s| < |sub| then None
    else if s[..|sub|] == sub then Some(0)
    else
      match IndexOf(s[1..], sub)
      case None =>
        assert forall j :: Occurs(s, sub, j) && j > 0 ==> Occurs(s[1..], sub, j - 1) by {
          forall j | Occurs(s, sub, j) && j > 0 ensures Occurs(s[1..], sub, j - 1) {
            assert s[1..][j - 1..j - 1 + |sub|] == s[j..j + |sub|];
          }
        }
        None
      case Some(i) =>
        assert s[1..][i..i + |sub|] == s[i + 1..i + 1 + |sub|];
        assert forall j :: 0 < j < i + 1 && Occurs(s, sub, j) ==> Occurs(s[1..], sub, j - 1) by {
          forall j | 0 < j < i + 1 && Occurs(s, sub, j) ensures Occurs(s[1..], sub, j - 1) {
            assert s[1..][j - 1..j - 1 + |sub|] == s[j..j + |sub|];
          }
        }
        Some(i + 1)
  }

  /** Python's `sub in s`. */
  predicate Contains(s: string, sub: string) {
    IndexOf(s, sub).Some?
  }

  /** An occurrence found in a suffix is an occurrence in the whole string, shifted by the cut. */
  lemma OccursInSuffix(s: string, sub: string, m: nat, j: int)
    requires m <= |s|
    ensures Occurs(s[m..], sub, j) <==> j >= 0 && Occurs(s, sub, j + m)
  {
    if 0 <= j && j + |sub| <= |s| - m {
      assert s[m..][j..j + |sub|] == s[j + m..j + m + |sub|];
    }
  }

  function Last<T>(s: seq<T>): T
    requires |s| > 0
  {
    s[|s| - 1]
  }

  lemma LastOfCons<T>(x: T, s: seq<T>)
    requires |s| > 0
    ensures Last([x] + s) == Last(s)
  {
  }

  /**
   Python's `s.split(sep)` for a non-empty separator: the pieces between the
   occurrences of `sep` found scanning from the left, without overlap.
   */
  function Split(s: string, sep: string): (r: seq<string>)
    requires |sep| > 0
    ensures |r| >= 1
    decreases |s|
  {
    match IndexOf(s, sep)
    case None => [s]
    case Some(i) => [s[..i]] + Split(s[i + |sep|..], sep)
  }

  /** The last piece of a split holds no separator. */
  lemma {:induction false} SplitLastHasNoSep(s: string, sep: string)
    requires |sep| > 0
    ensures !Contains(Last(Split(s, sep)), sep)
    decreases |s|
  {
    if Contains(s, sep) {
      var i := IndexOf(s, sep).value;
      var pieces := Split(s[i + |sep|..], sep);
      SplitAtFirst(s, sep, i, s[i + |sep|..]);
      LastOfCons(s[..i], pieces);
      SplitLastHasNoSep(s[i + |sep|..], sep);
    }
  }

  /** Python's `sep.join(pieces)`. */
  function Join(pieces: seq<string>, sep: string): string
    requires |pieces| >= 1
  {
    if |pieces| == 1 then pieces[0] else pieces[0] + sep + Join(pieces[1..], sep)
  }

  /** The first piece of a split ends at the first occurrence of the separator. */
  lemma SplitAtFirst(s: string, sep: string, i: nat, rest: string)
    requires |sep| > 0 && IndexOf(s, sep) == Some(i)
    requires i + |sep| <= |s| && rest == s[i + |sep|..]
    ensures Split(s, sep) == [s[..i]] + Split(rest, sep)
  {
  }

  /** The text before the first occurrence of `sub` holds no occurrence of it. */
  lemma PrefixBeforeFirst(s: string, sub: string, i: nat)
    requires |sub| > 0 && IndexOf(s, sub) == Some(i)
    ensures !Contains(s[..i], sub)
  {
    var t := s[..i];
    forall j | Occurs(t, sub, j) ensures false {
      assert t[j..j + |sub|] == s[j..j + |sub|];
      assert Occurs(s, sub, j) && j < i;
    }
  }

  /** No piece of a split holds the separator. */
  lemma {:induction false} SplitPiecesHaveNoSep(s: string, sep: string)
    requires |sep| > 0
    ensures forall p :: 0 <= p < |Split(s, sep)| ==> !Contains(Split(s, sep)[p], sep)
    decreases |s|
  {
    if Contains(s, sep) {
      var i := IndexOf(s, sep).value;
      var rest := s[i + |sep|..];
      var pieces := Split(rest, sep);
      SplitAtFirst(s, sep, i, rest);
      PrefixBeforeFirst(s, sep, i);
      SplitPiecesHaveNoSep(rest, sep);
      forall p | 0 <= p < |Split(s, sep)| ensures !Contains(Split(s, sep)[p], sep) {
        if p > 0 {
          assert Split(s, sep)[p] == pieces[p - 1];
        }
      }
    } else {
      assert Split(s, sep) == [s];
    }
  }

  /** Joining the pieces of a split with the same separator gives back the string. */
  lemma {:induction false} SplitJoin(s: string, sep: string)
    requires |sep| > 0
    ensures Join(Split(s, sep), sep) == s
    decreases |s|
  {
    if Contains(s, sep) {
      var i := IndexOf(s, sep).value;
      var rest := s[i + |sep|..];
      var pieces := Split(rest, sep);
      SplitAtFirst(s, sep, i, rest);
      JoinCons(s[..i], pieces, sep);
      SplitJoin(rest, sep);
      Reassemble(s, sep, i);
    }
  }

  lemma JoinCons(x: string, pieces: seq<string>, sep: string)
    requires |pieces| >= 1
    ensures Join([x] + pieces, sep) == x + sep + Join(pieces, sep)
  {
    assert ([x] + pieces)[1..] == pieces;
  }

  /** A string is the text before an occurrence, the occurrence, and the text after it. */
  lemma Reassemble(s: string, sep: string, i: nat)
    requires Occurs(s, sep, i)
    ensures s == s[..i] + sep + s[i + |sep|..]
  {
    assert s == s[..i] + s[i..i + |sep|] + s[i + |sep|..];
  }

  /**
   When `sep` occurs in `s`, the last piece of the split is what follows some
   occurrence of `sep`.
   */
  lemma SplitLastPiece(s: string, sep: string)
    requires |sep| > 0 && Contains(s, sep)
    ensures exists k :: Occurs(s, sep, k) && Last(Split(s, sep)) == s[k + |sep|..]
  {
    var k := LastPieceStart(s, sep);
  }

  /** The occurrence of `sep` that the last piece of the split follows. */
  lemma {:induction false} LastPieceStart(s: string, sep: string) returns (k: int)
    requires |sep| > 0 && Contains(s, sep)
    ensures Occurs(s, sep, k) && Last(Split(s, sep)) == s[k + |sep|..]
    decreases |s|
  {
    var i := IndexOf(s, sep).value;
    var rest := s[i + |sep|..];
    var pieces := Split(rest, sep);
    SplitAtFirst(s, sep, i, rest);
    LastOfCons(s[..i], pieces);
    if Contains(rest, sep) {
      var k' := LastPieceStart(rest, sep);
      k := ShiftOccurrence(s, sep, i + |sep|, rest, k');
    } else {
      SplitWithoutSep(rest, sep);
      k := i;
    }
  }

  /** An occurrence in the suffix from `m` on, and what follows it, seen in the whole string. */
  lemma ShiftOccurrence(s: string, sep: string, m: nat, rest: string, k': int) returns (k: int)
    requires m <= |s| && rest == s[m..] && Occurs(rest, sep, k')
    ensures k == k' + m && Occurs(s, sep, k) && rest[k' + |sep|..] == s[k + |sep|..]
  {
    OccursInSuffix(s, sep, m, k');
    k := k' + m;
  }

  /** A string without the separator splits into itself alone. */
  lemma SplitWithoutSep(s: string, sep: string)
    requires |sep| > 0 && !Contains(s, sep)
    ensures Split(s, sep) == [s]
  {
  }

  /** Lexicographic order on code points, a proper prefix first: Python's `<=` on `str`. */
  predicate LexLe(a: string, b: string)
    decreases |a|
  {
    |a| == 0 || (|b| > 0 && (a[0] < b[0] || (a[0] == b[0] && LexLe(a[1..], b[1..]))))
  }

  lemma {:induction false} LexLeTotal(a: string, b: string)
    ensures LexLe(a, b) || LexLe(b, a)
    decreases |a|
  {
    if |a| > 0 && |b| > 0 && a[0] == b[0] {
      LexLeTotal(a[1..], b[1..]);
    }
  }

  lemma {:induction false} LexLeTransitive(a: string, b: string, c: string)
    requires LexLe(a, b) && LexLe(b, c)
    ensures LexLe(a, c)
    decreases |a|
  {
    if |a| > 0 && a[0] == b[0] && b[0] == c[0] {
      LexLeTransitive(a[1..], b[1..], c[1..]);
    }
  }

  lemma {:induction false} LexLeAntisymmetric(a: string, b: string)
    requires LexLe(a, b) && LexLe(b, a)
    ensures a == b
    decreases |a|
  {
    if |a| > 0 {
      LexLeAntisymmetric(a[1..], b[1..]);
      assert a == [a[0]] + a[1..] && b == [b[0]] + b[1..];
    }
  }
}
