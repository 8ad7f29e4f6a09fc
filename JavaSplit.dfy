/** Java's `String.split(regex)` for a regex that matches one literal
    character (`"/"` and `"\\."` in the program), with the default limit 0:
    the string is cut at every occurrence of the character, and then the
    trailing empty pieces are removed. A string with no occurrence at all
    comes back whole, so `"".split("/")` is `[""]`, while `"//".split("/")`
    is the empty array. */
module JavaSplit {

  /** The pieces of `s` between occurrences of `c`, empty pieces included;
      always one more piece than there are occurrences. */
  function Pieces(s: string, c: char): (r: seq<string>)
    ensures |r| > 0
  {
    if |s| == 0 then [""]
    else
      var init := Pieces(s[..|s| - 1], c);
      if s[|s| - 1] == c then init + [""]
      else init[..|init| - 1] + [init[|init| - 1] + [s[|s| - 1]]]
  }

  /** Removes the empty pieces at the end, as split does with limit 0. */
  function DropTrailingEmpty(parts: seq<string>): (r: seq<string>)
    ensures |r| <= |parts| && r == parts[..|r|]
    ensures |r| > 0 ==> r[|r| - 1] != ""
    ensures forall i :: |r| <= i < |parts| ==> parts[i] == ""
  {
    if |parts| == 0 || parts[|parts| - 1] != "" then parts
    else DropTrailingEmpty(parts[..|parts| - 1])
  }

  /** `s.split(c)`. */
  function Split(s: string, c: char): seq<string>
  {
    if c !in s then [s] else DropTrailingEmpty(Pieces(s, c))
  }

  // ---------------------------------------------------------------------
  // Reference definitions, written without splitting.

  predicate AllChar(s: string, c: char)
  {
    forall i :: 0 <= i < |s| ==> s[i] == c
  }

  /** `s` without its trailing run of `c`. */
  function StripTrailing(s: string, c: char): string
  {
    if |s| > 0 && s[|s| - 1] == c then StripTrailing(s[..|s| - 1], c) else s
  }

  /** The text after the last `c` in `s` (all of `s` when there is none). */
  function AfterLast(s: string, c: char): string
  {
    if |s| == 0 then ""
    else if s[|s| - 1] == c then ""
    else AfterLast(s[..|s| - 1], c) + [s[|s| - 1]]
  }

  /** The text before the first `c` in `s` (all of `s` when there is none). */
  function BeforeFirst(s: string, c: char): string
  {
    if |s| == 0 then ""
    else if s[0] == c then ""
    else [s[0]] + BeforeFirst(s[1..], c)
  }

  /** Each piece followed by the separator, all concatenated. */
  function JoinTerminated(parts: seq<string>, sep: string): string
  {
    if |parts| == 0 then ""
    else JoinTerminated(parts[..|parts| - 1], sep) + parts[|parts| - 1] + sep
  }

  // ---------------------------------------------------------------------
  // Facts about the reference definitions.

  lemma {:induction false} StripTrailingEmpty(s: string, c: char)
    ensures StripTrailing(s, c) == "" <==> AllChar(s, c)
  {
    if |s| > 0 && s[|s| - 1] == c {
      StripTrailingEmpty(s[..|s| - 1], c);
      if AllChar(s[..|s| - 1], c) {
        forall i | 0 <= i < |s| ensures s[i] == c {
          if i < |s| - 1 { assert s[..|s| - 1][i] == s[i]; }
        }
      } else {
        var i :| 0 <= i < |s| - 1 && s[..|s| - 1][i] != c;
        assert s[i] != c;
      }
    } else if |s| > 0 {
      assert s[|s| - 1] != c;
    }
  }

  lemma {:induction false} FreeOfSeparator(s: string, c: char)
    requires c !in s
    ensures StripTrailing(s, c) == s && AfterLast(s, c) == s && BeforeFirst(s, c) == s
  {
    FreeAtEnd(s, c);
    FreeAtStart(s, c);
  }

  lemma {:induction false} FreeAtEnd(s: string, c: char)
    requires c !in s
    ensures AfterLast(s, c) == s
  {
    if |s| > 0 {
      var t := s[..|s| - 1];
      assert s[|s| - 1] in s;
      assert c !in t by { assert forall x :: x in t ==> x in s; }
      FreeAtEnd(t, c);
      assert t + [s[|s| - 1]] == s;
    }
  }

  lemma {:induction false} FreeAtStart(s: string, c: char)
    requires c !in s
    ensures BeforeFirst(s, c) == s
  {
    if |s| > 0 {
      assert s[0] in s;
      assert c !in s[1..] by { assert forall x :: x in s[1..] ==> x in s; }
      FreeAtStart(s[1..], c);
      assert [s[0]] + s[1..] == s;
    }
  }

  lemma {:induction false} BeforeFirstSnoc(t: string, x: char, c: char)
    ensures BeforeFirst(t + [x], c) ==
      if c in t then BeforeFirst(t, c) else if x == c then t else t + [x]
  {
    if |t| == 0 {
    } else {
      assert (t + [x])[0] == t[0];
      assert (t + [x])[1..] == t[1..] + [x];
      if t[0] != c {
        BeforeFirstSnoc(t[1..], x, c);
        assert c in t <==> c in t[1..] by {
          assert t == [t[0]] + t[1..];
        }
        assert [t[0]] + t[1..] == t;
        assert [t[0]] + (t[1..] + [x]) == t + [x];
      }
    }
  }

  // ---------------------------------------------------------------------
  // Facts about Pieces.

  lemma {:induction false} PiecesFree(s: string, c: char)
    ensures forall i :: 0 <= i < |Pieces(s, c)| ==> c !in Pieces(s, c)[i]
  {
    if |s| > 0 {
      PiecesFree(s[..|s| - 1], c);
    }
  }

  lemma {:induction false} PiecesSingle(s: string, c: char)
    ensures |Pieces(s, c)| == 1 <==> c !in s
    ensures c !in s ==> Pieces(s, c) == [s]
  {
    if |s| > 0 {
      var t := s[..|s| - 1];
      PiecesSingle(t, c);
      assert s == t + [s[|s| - 1]];
      assert c in s <==> c in t || s[|s| - 1] == c;
    }
  }

  lemma {:induction false} PiecesLast(s: string, c: char)
    ensures Pieces(s, c)[|Pieces(s, c)| - 1] == AfterLast(s, c)
  {
    if |s| > 0 {
      PiecesLast(s[..|s| - 1], c);
    }
  }

  lemma {:induction false} PiecesFirst(s: string, c: char)
    ensures Pieces(s, c)[0] == BeforeFirst(s, c)
  {
    if |s| > 0 {
      var t, x := s[..|s| - 1], s[|s| - 1];
      assert s == t + [x];
      PiecesFirst(t, c);
      BeforeFirstSnoc(t, x, c);
      PiecesSingle(t, c);
      if c !in t {
        FreeOfSeparator(t, c);
      }
    }
  }

  lemma {:induction false} PiecesJoin(s: string, c: char)
    ensures var p := Pieces(s, c);
      JoinTerminated(p[..|p| - 1], [c]) + p[|p| - 1] == s
  {
    if |s| > 0 {
      var t, x := s[..|s| - 1], s[|s| - 1];
      var q := Pieces(t, c);
      var p := Pieces(s, c);
      PiecesJoin(t, c);
      if x == c {
        assert p[..|p| - 1] == q;
        assert q == q[..|q| - 1] + [q[|q| - 1]];
        assert JoinTerminated(q, [c]) == JoinTerminated(q[..|q| - 1], [c]) + q[|q| - 1] + [c];
      } else {
        assert p[..|p| - 1] == q[..|q| - 1];
      }
      assert s == t + [x];
    }
  }

  lemma {:induction false} DropPieces(s: string, c: char)
    ensures DropTrailingEmpty(Pieces(s, c)) ==
      if StripTrailing(s, c) == "" then [] else Pieces(StripTrailing(s, c), c)
  {
    if |s| > 0 && s[|s| - 1] == c {
      var t := s[..|s| - 1];
      var p := Pieces(s, c);
      assert p[..|p| - 1] == Pieces(t, c);
      DropPieces(t, c);
    } else if |s| > 0 {
      PiecesLast(s, c);
    }
  }

  // ---------------------------------------------------------------------
  // What split returns.

  /** split returns an empty array exactly when the string is non-empty and
      made only of the separator. */
  lemma SplitEmpty(s: string, c: char)
    ensures |Split(s, c)| == 0 <==> |s| > 0 && AllChar(s, c)
  {
    StripTrailingEmpty(s, c);
    if c in s {
      DropPieces(s, c);
    } else if |s| > 0 {
      assert s[0] in s;
    }
  }

  /** The last piece of split is the text after the last separator, once
      trailing separators are ignored. */
  lemma SplitLast(s: string, c: char)
    requires |Split(s, c)| > 0
    ensures Split(s, c)[|Split(s, c)| - 1] == AfterLast(StripTrailing(s, c), c)
  {
    if c in s {
      DropPieces(s, c);
      PiecesLast(StripTrailing(s, c), c);
    } else {
      FreeOfSeparator(s, c);
    }
  }

  /** The first piece of split is the text before the first separator. */
  lemma SplitFirst(s: string, c: char)
    requires |Split(s, c)| > 0
    ensures Split(s, c)[0] == BeforeFirst(s, c)
  {
    if c in s {
      PiecesFirst(s, c);
    } else {
      FreeOfSeparator(s, c);
    }
  }

  /** No piece of split contains the separator. */
  lemma SplitFree(s: string, c: char)
    ensures forall i :: 0 <= i < |Split(s, c)| ==> c !in Split(s, c)[i]
  {
    PiecesFree(s, c);
  }

  /** When the string does not end in the separator, putting the separator
      back after every piece but the last rebuilds it. */
  lemma SplitJoin(s: string, c: char)
    requires |s| == 0 || s[|s| - 1] != c
    ensures var p := Split(s, c);
      |p| > 0 && JoinTerminated(p[..|p| - 1], [c]) + p[|p| - 1] == s
  {
    if c in s {
      DropPieces(s, c);
      PiecesJoin(s, c);
    }
  }
}
