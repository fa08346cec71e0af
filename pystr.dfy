/** The few Python `str` operations the game relies on: `strip()`, `split(sep)`,
    `sep.join(parts)` and `str(n)` for integers. Characters are restricted to
    their ASCII behaviour. */
module PyStr {

  /** The characters `str.isspace()` accepts below 128: space, \t \n \v \f \r
      and the separators \x1c-\x1f. `str.strip()` removes these. */
  predicate IsSpace(c: char) {
    c == ' ' || (9 <= c as int <= 13) || (28 <= c as int <= 31)
  }

  /** End of the run of whitespace in `s` that starts at `i`. */
  function SpacesFrom(s: string, i: nat): (n: nat)
    requires i <= |s|
    ensures i <= n <= |s|
    ensures n < |s| ==> !IsSpace(s[n])
    decreases |s| - i
  {
    if i < |s| && IsSpace(s[i]) then SpacesFrom(s, i + 1) else i
  }

  /** Start of the run of whitespace in `s` that ends at `j`. */
  function SpacesBefore(s: string, j: nat): (m: nat)
    requires j <= |s|
    ensures m <= j
    ensures 0 < m ==> !IsSpace(s[m - 1])
  {
    if 0 < j && IsSpace(s[j - 1]) then SpacesBefore(s, j - 1) else j
  }

  /** Length of the run of whitespace at the start of `s`. */
  function LeadingSpaces(s: string): nat {
    SpacesFrom(s, 0)
  }

  /** Index where the run of whitespace at the end of `s` begins. */
  function TrailingSpacesStart(s: string): nat {
    SpacesBefore(s, |s|)
  }

  lemma {:induction false} SpacesFromAreSpaces(s: string, i: nat, q: nat)
    requires i <= |s| && i <= q < SpacesFrom(s, i)
    ensures IsSpace(s[q])
    decreases |s| - i
  {
    if q > i {
      SpacesFromAreSpaces(s, i + 1, q);
    }
  }

  lemma {:induction false} SpacesBeforeAreSpaces(s: string, j: nat, q: nat)
    requires j <= |s| && SpacesBefore(s, j) <= q < j
    ensures IsSpace(s[q])
  {
    if q < j - 1 {
      SpacesBeforeAreSpaces(s, j - 1, q);
    }
  }

  /** Everything before `LeadingSpaces(s)` is whitespace. */
  lemma LeadingSpace(s: string, q: nat)
    requires q < LeadingSpaces(s)
    ensures IsSpace(s[q])
  {
    SpacesFromAreSpaces(s, 0, q);
  }

  /** Everything from `TrailingSpacesStart(s)` on is whitespace. */
  lemma TrailingSpace(s: string, q: nat)
    requires TrailingSpacesStart(s) <= q < |s|
    ensures IsSpace(s[q])
  {
    SpacesBeforeAreSpaces(s, |s|, q);
  }

  /** `s.strip()`: the slice of `s` left after removing all leading and all
      trailing whitespace; it neither starts nor ends with whitespace. */
  function Strip(s: string): (r: string)
    ensures LeadingSpaces(s) + |r| <= |s|
    ensures r == [] || (!IsSpace(r[0]) && !IsSpace(r[|r| - 1]))
  {
    var a, b := LeadingSpaces(s), TrailingSpacesStart(s);
    if a < b then s[a..b] else []
  }

  /** Where the stripped text sits in `s`: right after the leading
      whitespace, and up to the trailing whitespace or the end. */
  lemma StripSlice(s: string)
    ensures var r, a := Strip(s), LeadingSpaces(s);
      && r == s[a..a + |r|]
      && (r != [] ==> a + |r| == TrailingSpacesStart(s))
      && (r == [] ==> a == |s|)
  {
    var a, b := LeadingSpaces(s), TrailingSpacesStart(s);
    if b <= a && a < |s| {
      TrailingSpace(s, a);
    }
  }

  /** How many times `c` occurs in `s`. */
  function Count(s: string, c: char): nat {
    if s == [] then 0 else (if s[0] == c then 1 else 0) + Count(s[1..], c)
  }

  /** `s.split(sep)` for a one-character separator: the pieces between
      separators, always at least one (`"".split(sep) == [""]`). */
  function Split(s: string, sep: char): (r: seq<string>)
    ensures |r| == Count(s, sep) + 1
  {
    if s == [] then [""]
    else
      var rest := Split(s[1..], sep);
      if s[0] == sep then [""] + rest else [[s[0]] + rest[0]] + rest[1..]
  }

  /** `sep.join(parts)` for a non-empty list of parts. */
  function Join(parts: seq<string>, sep: char): string
    requires |parts| >= 1
  {
    if |parts| == 1 then parts[0] else parts[0] + [sep] + Join(parts[1..], sep)
  }

  /** No piece of a split holds the separator. */
  lemma {:induction false} SplitPiecesFree(s: string, sep: char, j: nat)
    requires j < |Split(s, sep)|
    ensures sep !in Split(s, sep)[j]
  {
    if s != [] {
      var rest := Split(s[1..], sep);
      if s[0] == sep {
        if j > 0 {
          SplitPiecesFree(s[1..], sep, j - 1);
        }
      } else if j == 0 {
        SplitPiecesFree(s[1..], sep, 0);
      } else {
        SplitPiecesFree(s[1..], sep, j);
      }
    }
  }

  /** Joining the pieces of a split gives back the original string. */
  lemma {:induction false} SplitJoin(s: string, sep: char)
    ensures Join(Split(s, sep), sep) == s
  {
    if s != [] {
      var rest := Split(s[1..], sep);
      SplitJoin(s[1..], sep);
      if s[0] == sep {
        assert Split(s, sep) == [""] + rest;
        assert Join([""] + rest, sep) == [sep] + Join(rest, sep);
      } else {
        assert Split(s, sep) == [[s[0]] + rest[0]] + rest[1..];
        JoinPrepend(s[0], rest, sep);
      }
      assert s == [s[0]] + s[1..];
    }
  }

  /** Prepending a character to the first piece prepends it to the join. */
  lemma JoinPrepend(c: char, parts: seq<string>, sep: char)
    requires |parts| >= 1
    ensures Join([[c] + parts[0]] + parts[1..], sep) == [c] + Join(parts, sep)
  {
    var r := [[c] + parts[0]] + parts[1..];
    if |parts| > 1 {
      assert r[1..] == parts[1..];
    }
  }

  /** A separator-free prefix joins the first piece of what follows it. */
  lemma {:induction false} SplitPrefix(w: string, t: string, sep: char)
    requires sep !in w
    ensures Split(w + t, sep) == [w + Split(t, sep)[0]] + Split(t, sep)[1..]
  {
    var r := Split(t, sep);
    if w == [] {
      assert w + t == t;
      assert w + r[0] == r[0];
      assert r == [r[0]] + r[1..];
    } else {
      SplitPrefix(w[1..], t, sep);
      assert (w + t)[1..] == w[1..] + t;
      var rest := Split(w[1..] + t, sep);
      assert w[0] != sep && (w + t)[0] == w[0];
      assert Split(w + t, sep) == [[w[0]] + rest[0]] + rest[1..];
      assert rest[0] == w[1..] + r[0] && rest[1..] == r[1..];
      assert [w[0]] + (w[1..] + r[0]) == w + r[0];
    }
  }

  /** A separator-free piece followed by a separator splits off as one piece. */
  lemma SplitAfterPiece(w: string, t: string, sep: char)
    requires sep !in w
    ensures Split(w + [sep] + t, sep) == [w] + Split(t, sep)
  {
    SplitPrefix(w, [sep] + t, sep);
    assert w + [sep] + t == w + ([sep] + t);
    assert ([sep] + t)[1..] == t;
    assert Split([sep] + t, sep) == [""] + Split(t, sep);
    assert w + "" == w;
  }

  /** Splitting a join of separator-free pieces gives back the pieces. */
  lemma {:induction false} JoinSplit(parts: seq<string>, sep: char)
    requires |parts| >= 1
    requires forall i :: 0 <= i < |parts| ==> sep !in parts[i]
    ensures Split(Join(parts, sep), sep) == parts
  {
    if |parts| == 1 {
      SplitPrefix(parts[0], [], sep);
      assert parts[0] + [] == parts[0];
    } else {
      JoinSplit(parts[1..], sep);
      SplitAfterPiece(parts[0], Join(parts[1..], sep), sep);
      assert parts == [parts[0]] + parts[1..];
    }
  }

  /** `piece` occurs in `s` at index `a`, delimited by `sep` or by the ends of `s`. */
  predicate PieceAt(s: string, sep: char, piece: string, a: int) {
    && 0 <= a && a + |piece| <= |s|
    && s[a..a + |piece|] == piece
    && (a == 0 || s[a - 1] == sep)
    && (a + |piece| == |s| || s[a + |piece|] == sep)
  }

  /** A piece of `s[1..]` not at its very start, or any piece when `s` starts
      with the separator, is a piece of `s` one position further on. */
  lemma ShiftPiece(s: string, sep: char, piece: string, b: nat)
    requires s != []
    requires PieceAt(s[1..], sep, piece, b)
    requires b == 0 ==> s[0] == sep
    ensures PieceAt(s, sep, piece, b + 1)
  {
    var t := s[1..];
    assert s[b + 1..b + 1 + |piece|] == t[b..b + |piece|];
    if b > 0 {
      assert s[b] == t[b - 1];
    }
    if b + |piece| < |t| {
      assert s[b + 1 + |piece|] == t[b + |piece|];
    }
  }

  /** The first piece of `s[1..]` grown by a leading non-separator is the
      first piece of `s`. */
  lemma GrowPiece(s: string, sep: char, piece: string)
    requires s != [] && s[0] != sep
    requires PieceAt(s[1..], sep, piece, 0)
    ensures PieceAt(s, sep, [s[0]] + piece, 0)
  {
    var t := s[1..];
    assert s[..1 + |piece|] == [s[0]] + t[..|piece|];
    if |piece| < |t| {
      assert s[1 + |piece|] == t[|piece|];
    }
  }

  /** Every piece of a split sits in the original string between separators. */
  lemma {:induction false} SplitPiece(s: string, sep: char, j: nat) returns (a: nat)
    requires j < |Split(s, sep)|
    ensures PieceAt(s, sep, Split(s, sep)[j], a)
    ensures j == 0 <==> a == 0
  {
    if s == [] {
      a := 0;
    } else {
      var rest := Split(s[1..], sep);
      var piece := Split(s, sep)[j];
      if s[0] == sep && j == 0 {
        a := 0;
      } else if s[0] == sep {
        assert piece == rest[j - 1];
        var b := SplitPiece(s[1..], sep, j - 1);
        ShiftPiece(s, sep, piece, b);
        a := b + 1;
      } else if j == 0 {
        assert piece == [s[0]] + rest[0];
        var b := SplitPiece(s[1..], sep, 0);
        GrowPiece(s, sep, rest[0]);
        a := 0;
      } else {
        assert piece == rest[j];
        var b := SplitPiece(s[1..], sep, j);
        ShiftPiece(s, sep, piece, b);
        a := b + 1;
      }
    }
  }

  /** A stretch of `s` containing no separator lies inside a single piece. */
  lemma {:induction false} SplitCover(s: string, sep: char, p: nat, n: nat) returns (j: nat, a: nat)
    requires p + n <= |s|
    requires forall q :: p <= q < p + n ==> s[q] != sep
    ensures j < |Split(s, sep)|
    ensures PieceAt(s, sep, Split(s, sep)[j], a)
    ensures a <= p && p + n <= a + |Split(s, sep)[j]|
    ensures j == 0 <==> a == 0
  {
    if p == 0 && n == 0 {
      j := 0;
      a := SplitPiece(s, sep, 0);
    } else {
      var rest := Split(s[1..], sep);
      var t := s[1..];
      if s[0] == sep {
        var j', b := SplitCover(t, sep, p - 1, n);
        ShiftPiece(s, sep, rest[j'], b);
        j, a := j' + 1, b + 1;
      } else {
        var j', b := SplitCover(t, sep, if p > 0 then p - 1 else 0, if p > 0 then n else n - 1);
        if j' == 0 {
          GrowPiece(s, sep, rest[0]);
          j, a := 0, 0;
        } else {
          ShiftPiece(s, sep, rest[j'], b);
          j, a := j', b + 1;
        }
      }
    }
  }

  /** The character of a decimal digit. */
  function DigitChar(d: nat): (c: char)
    requires d < 10
    ensures '0' <= c <= '9'
  {
    ('0' as int + d) as char
  }

  predicate IsDigits(s: string) {
    forall k :: 0 <= k < |s| ==> '0' <= s[k] <= '9'
  }

  /** `str(n)` for a non-negative integer: decimal digits, no leading zero. */
  function NatString(n: nat): (r: string)
    ensures |r| >= 1 && IsDigits(r)
    ensures r[0] == '0' ==> r == "0"
  {
    if n < 10 then [DigitChar(n)] else NatString(n / 10) + [DigitChar(n % 10)]
  }

  /** `str(n)` for any integer: a minus sign before the digits of a negative. */
  function IntString(n: int): (r: string)
    ensures |r| >= 1
    ensures forall k :: 0 <= k < |r| ==> r[k] == '-' || '0' <= r[k] <= '9'
  {
    if n < 0 then "-" + NatString(-n) else NatString(n)
  }

  /** The number a string of decimal digits denotes. */
  function DigitsValue(s: string): nat
    requires IsDigits(s)
  {
    if s == [] then 0 else 10 * DigitsValue(s[..|s| - 1]) + (s[|s| - 1] as int - '0' as int)
  }

  /** The number a signed decimal numeral denotes (what `int(s)` reads back). */
  function IntValue(s: string): int
    requires |s| >= 1
    requires s[0] == '-' ==> IsDigits(s[1..])
    requires s[0] != '-' ==> IsDigits(s)
  {
    if s[0] == '-' then 0 - DigitsValue(s[1..]) else DigitsValue(s)
  }

  lemma {:induction false} NatStringValue(n: nat)
    ensures DigitsValue(NatString(n)) == n
  {
    if n >= 10 {
      NatStringValue(n / 10);
      var r := NatString(n);
      assert r[..|r| - 1] == NatString(n / 10);
    }
  }

  /** `str(n)` reads back as `n`. */
  lemma {:induction false} IntStringValue(n: int)
    ensures var r := IntString(n);
      (r[0] == '-' ==> IsDigits(r[1..])) && (r[0] != '-' ==> IsDigits(r)) && IntValue(r) == n
  {
    if n < 0 {
      NatStringValue(-n);
      assert IntString(n)[1..] == NatString(-n);
    } else {
      NatStringValue(n);
    }
  }
}
