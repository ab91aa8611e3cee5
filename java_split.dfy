/** `String.split` as the parser calls it: a one-character separator that is
    not a regular-expression metacharacter (`&`, `=`) and the default limit 0,
    under which trailing empty strings are removed from the result. */
module JavaSplit {

  /** The pieces joined back together, one separator between neighbours. */
  function Join(pieces: seq<string>, sep: char): string
    decreases |pieces|
  {
    if |pieces| == 0 then ""
    else if |pieces| == 1 then pieces[0]
    else pieces[0] + [sep] + Join(pieces[1..], sep)
  }

  /** Every piece of `s` between separators, empty ones included: a string
      with k separators has k + 1 pieces. */
  function Pieces(s: string, sep: char): (r: seq<string>)
    ensures |r| > 0
    decreases |s|
  {
    if |s| == 0 then [""]
    else
      var rest := Pieces(s[1..], sep);
      if s[0] == sep then [""] + rest else [[s[0]] + rest[0]] + rest[1..]
  }

  /** No piece contains the separator. */
  lemma {:induction false} PiecesSeparatorFree(s: string, sep: char)
    ensures forall i | 0 <= i < |Pieces(s, sep)| :: sep !in Pieces(s, sep)[i]
    decreases |s|
  {
    if |s| > 0 {
      var rest := Pieces(s[1..], sep);
      PiecesSeparatorFree(s[1..], sep);
      if s[0] != sep {
        assert sep !in [s[0]] + rest[0];
      }
    }
  }

  /** The pieces joined with the separator give back the string. */
  lemma {:induction false} PiecesJoin(s: string, sep: char)
    ensures Join(Pieces(s, sep), sep) == s
    decreases |s|
  {
    if |s| > 0 {
      var rest := Pieces(s[1..], sep);
      PiecesJoin(s[1..], sep);
      if s[0] == sep {
        assert Pieces(s, sep) == [""] + rest;
        assert s == [sep] + s[1..];
      } else {
        var first := [s[0]] + rest[0];
        assert Pieces(s, sep) == [first] + rest[1..];
        if |rest| == 1 {
          assert s == [s[0]] + s[1..];
        } else {
          assert Join(rest, sep) == rest[0] + [sep] + Join(rest[1..], sep);
          assert Join([first] + rest[1..], sep) == first + [sep] + Join(rest[1..], sep);
          assert s == [s[0]] + s[1..];
        }
      }
    }
  }

  /** Removes the empty strings at the end, as `split` does with limit 0. */
  function DropTrailingEmpty(r: seq<string>): seq<string>
    decreases |r|
  {
    if |r| > 0 && r[|r| - 1] == "" then DropTrailingEmpty(r[..|r| - 1]) else r
  }

  /** What is kept is a prefix that does not end in an empty string, and
      everything removed is empty. */
  lemma {:induction false} DropTrailingEmptyKeeps(r: seq<string>)
    ensures DropTrailingEmpty(r) <= r
    ensures var t := DropTrailingEmpty(r); |t| == 0 || t[|t| - 1] != ""
    ensures forall i | |DropTrailingEmpty(r)| <= i < |r| :: r[i] == ""
    decreases |r|
  {
    if |r| > 0 && r[|r| - 1] == "" {
      DropTrailingEmptyKeeps(r[..|r| - 1]);
    }
  }

  /** `s.split(sep)`. Without any separator the whole string comes back as
      the one element, even when it is empty; otherwise the pieces are
      returned without the trailing empty ones. */
  function Split(s: string, sep: char): seq<string> {
    if sep !in s then [s] else DropTrailingEmpty(Pieces(s, sep))
  }

  /** `split` keeps a prefix of the pieces and removes only empty ones from
      the end; `""` splits to `[""]`, and no other string splits to a result
      that ends in an empty string. */
  lemma SplitKeepsPieces(s: string, sep: char)
    ensures Split(s, sep) <= Pieces(s, sep)
    ensures forall i | |Split(s, sep)| <= i < |Pieces(s, sep)| :: Pieces(s, sep)[i] == ""
    ensures s == "" ==> Split(s, sep) == [""]
    ensures s != "" ==> var r := Split(s, sep); |r| == 0 || r[|r| - 1] != ""
  {
    if sep !in s {
      PiecesWithoutSeparator(s, sep);
    } else {
      DropTrailingEmptyKeeps(Pieces(s, sep));
    }
  }

  /** `n` copies of the separator. */
  function Repeat(c: char, n: nat): (s: string)
    ensures |s| == n && forall i | 0 <= i < n :: s[i] == c
  {
    seq(n, _ => c)
  }

  /** `n` empty strings. */
  function Blanks(n: nat): (r: seq<string>)
    ensures |r| == n && forall i | 0 <= i < n :: r[i] == ""
  {
    seq(n, _ => "")
  }

  lemma {:induction false} PiecesWithoutSeparator(s: string, sep: char)
    requires sep !in s
    ensures Pieces(s, sep) == [s]
    decreases |s|
  {
    if |s| > 0 {
      assert sep !in s[1..];
      PiecesWithoutSeparator(s[1..], sep);
      assert [s[0]] + s[1..] == s;
    }
  }

  /** The first separator ends the first piece; the rest is split on its own. */
  lemma {:induction false} PiecesAfterSeparator(x: string, sep: char, y: string)
    requires sep !in x
    ensures Pieces(x + [sep] + y, sep) == [x] + Pieces(y, sep)
    decreases |x|
  {
    var s := x + [sep] + y;
    if |x| == 0 {
      assert s[1..] == y;
    } else {
      assert s[1..] == x[1..] + [sep] + y;
      assert sep !in x[1..];
      PiecesAfterSeparator(x[1..], sep, y);
      assert [x[0]] + x[1..] == x;
    }
  }

  /** A separator-free string followed by `n` separators has that string and
      then `n` empty strings as its pieces. */
  lemma {:induction false} PiecesTrailingSeparators(b: string, sep: char, n: nat)
    requires sep !in b
    ensures Pieces(b + Repeat(sep, n), sep) == [b] + Blanks(n)
    decreases n
  {
    if n == 0 {
      assert b + Repeat(sep, 0) == b;
      PiecesWithoutSeparator(b, sep);
    } else {
      assert b + Repeat(sep, n) == b + [sep] + Repeat(sep, n - 1);
      PiecesAfterSeparator(b, sep, Repeat(sep, n - 1));
      assert "" + Repeat(sep, n - 1) == Repeat(sep, n - 1);
      PiecesTrailingSeparators("", sep, n - 1);
      assert [""] + Blanks(n - 1) == Blanks(n);
    }
  }

  /** Trailing empty strings after a non-empty last element are all removed. */
  lemma {:induction false} DropBlanks(t: seq<string>, n: nat)
    requires |t| > 0 && t[|t| - 1] != ""
    ensures DropTrailingEmpty(t + Blanks(n)) == t
    decreases n
  {
    if n > 0 {
      assert (t + Blanks(n))[..|t| + n - 1] == t + Blanks(n - 1);
      DropBlanks(t, n - 1);
    } else {
      assert t + Blanks(0) == t;
    }
  }

  /** `"a=b".split("=")` is `[a, b]`, and so is `"a=b=="` with any number of
      trailing separators; the value `b` must be non-empty. */
  lemma SplitPair(a: string, sep: char, b: string, n: nat)
    requires sep !in a && sep !in b && b != ""
    ensures Split(a + [sep] + b + Repeat(sep, n), sep) == [a, b]
  {
    var s := a + [sep] + b + Repeat(sep, n);
    assert s == a + [sep] + (b + Repeat(sep, n));
    assert s[|a|] == sep;
    PiecesAfterSeparator(a, sep, b + Repeat(sep, n));
    PiecesTrailingSeparators(b, sep, n);
    assert Pieces(s, sep) == [a, b] + Blanks(n);
    DropBlanks([a, b], n);
  }

  /** A missing value (`"a="`, `"a=="`, `"="`) leaves at most one element:
      the key alone, or nothing when the key is empty too. */
  lemma SplitMissingValue(a: string, sep: char, n: nat)
    requires sep !in a && n > 0
    ensures Split(a + Repeat(sep, n), sep) == if a == "" then [] else [a]
  {
    var s := a + Repeat(sep, n);
    assert s[|a|] == sep;
    PiecesTrailingSeparators(a, sep, n);
    if a == "" {
      assert Pieces(s, sep) == Blanks(n + 1);
      BlanksDropped(n + 1);
    } else {
      DropBlanks([a], n);
    }
  }

  lemma {:induction false} BlanksDropped(n: nat)
    ensures DropTrailingEmpty(Blanks(n)) == []
    decreases n
  {
    if n > 0 {
      assert Blanks(n)[..n - 1] == Blanks(n - 1);
      BlanksDropped(n - 1);
    }
  }
}
