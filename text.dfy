/**
  The string operations the `suggest` action relies on, with ECMAScript
  semantics: `String.prototype.trim`, `String.prototype.split` with a
  one-character separator, `Array.prototype.join`, and the decimal rendering
  of a line number inside a template literal.

  Strings are sequences of Unicode scalar values; the source works on UTF-16
  strings, which makes no difference for the characters these operations
  look at.
*/
module Text {

  /** The code points `trim` removes: ECMAScript WhiteSpace (TAB, VT, FF,
      SPACE, NBSP, ZWNBSP and the Zs category) and LineTerminator (LF, CR,
      LS, PS). A carriage return left by a CRLF line ending is one of them. */
  predicate IsTrimmable(c: char) {
    || c == '\t' || c == '\n' || c == '\U{B}' || c == '\U{C}' || c == '\r'
    || c == ' ' || c == '\U{A0}' || c == '\U{1680}'
    || ('\U{2000}' <= c <= '\U{200A}')
    || c == '\U{2028}' || c == '\U{2029}' || c == '\U{202F}' || c == '\U{205F}'
    || c == '\U{3000}' || c == '\U{FEFF}'
  }

  ghost predicate AllTrimmable(s: string) {
    forall i :: 0 <= i < |s| ==> IsTrimmable(s[i])
  }

  /** Drops the leading trimmable characters. */
  function TrimStart(s: string): string
    decreases |s|
  {
    if s != [] && IsTrimmable(s[0]) then TrimStart(s[1..]) else s
  }

  /** Drops the trailing trimmable characters. */
  function TrimEnd(s: string): string
    decreases |s|
  {
    if s != [] && IsTrimmable(s[|s| - 1]) then TrimEnd(s[..|s| - 1]) else s
  }

  /** `s.trim()`. Its meaning is stated by `TrimShape` below; the function
      itself carries no postcondition, so that reasoning about many trimmed
      lines at once does not unfold it needlessly. */
  function Trim(s: string): string
  {
    TrimEnd(TrimStart(s))
  }

  /** What `TrimStart` leaves is a suffix of `s` that starts with a character
      `trim` keeps (or is empty); everything it drops is trimmable. */
  lemma {:induction false} TrimStartShape(s: string)
    ensures var r := TrimStart(s);
      && |r| <= |s| && r == s[|s| - |r|..]
      && AllTrimmable(s[..|s| - |r|])
      && (r == [] || !IsTrimmable(r[0]))
    decreases |s|
  {
    if s != [] && IsTrimmable(s[0]) {
      TrimStartShape(s[1..]);
      var r := TrimStart(s[1..]);
      assert s[1..][|s| - 1 - |r|..] == s[|s| - |r|..];
      assert s[..|s| - |r|] == [s[0]] + s[1..][..|s| - 1 - |r|];
    }
  }

  /** What `TrimEnd` leaves is a prefix of `s` that ends with a character
      `trim` keeps (or is empty); everything it drops is trimmable. */
  lemma {:induction false} TrimEndShape(s: string)
    ensures var r := TrimEnd(s);
      && |r| <= |s| && r == s[..|r|]
      && AllTrimmable(s[|r|..])
      && (r == [] || !IsTrimmable(r[|r| - 1]))
    decreases |s|
  {
    if s != [] && IsTrimmable(s[|s| - 1]) {
      TrimEndShape(s[..|s| - 1]);
      var r := TrimEnd(s[..|s| - 1]);
      assert s[..|s| - 1][..|r|] == s[..|r|];
      assert s[|r|..] == s[..|s| - 1][|r|..] + [s[|s| - 1]];
    }
  }

  /** `trim` keeps the infix of `s` that starts after the leading trimmable
      characters and neither starts nor ends with a trimmable character;
      everything cut off on either side is trimmable. */
  lemma TrimShape(s: string)
    ensures |TrimStart(s)| <= |s|
    ensures var r, lead := Trim(s), |s| - |TrimStart(s)|;
      && lead + |r| <= |s|
      && r == s[lead..lead + |r|]
      && AllTrimmable(s[..lead])
      && AllTrimmable(s[lead + |r|..])
      && (r == [] || (!IsTrimmable(r[0]) && !IsTrimmable(r[|r| - 1])))
  {
    TrimStartShape(s);
    TrimEndShape(TrimStart(s));
    InfixShape(s, TrimStart(s), Trim(s));
  }

  /** A prefix `r` of a suffix `t` of `s` is an infix of `s`, and what lies
      around it is what lies before `t` and after `r` in `t`. */
  lemma InfixShape(s: string, t: string, r: string)
    requires |t| <= |s| && t == s[|s| - |t|..] && AllTrimmable(s[..|s| - |t|])
    requires |r| <= |t| && r == t[..|r|] && AllTrimmable(t[|r|..])
    requires t == [] || !IsTrimmable(t[0])
    requires r == [] || !IsTrimmable(r[|r| - 1])
    ensures var lead := |s| - |t|;
      && lead + |r| <= |s|
      && r == s[lead..lead + |r|]
      && AllTrimmable(s[lead + |r|..])
      && (r == [] || (!IsTrimmable(r[0]) && !IsTrimmable(r[|r| - 1])))
  {
    var lead := |s| - |t|;
    PrefixOfSuffix(s, lead, |r|);
    assert t[|r|..] == s[lead + |r|..];
    if r != [] {
      assert r[0] == t[0];
    }
  }

  lemma PrefixOfSuffix(s: string, lead: nat, n: nat)
    requires lead + n <= |s|
    ensures s[lead..][..n] == s[lead..lead + n]
    ensures s[lead..][n..] == s[lead + n..]
  {
  }

  /** A string is left unchanged by `trim` exactly when it neither starts nor
      ends with a trimmable character. */
  lemma TrimFixedPoint(s: string)
    ensures Trim(s) == s <==> (s == [] || (!IsTrimmable(s[0]) && !IsTrimmable(s[|s| - 1])))
  {
    TrimShape(s);
    if s != [] && !IsTrimmable(s[0]) && !IsTrimmable(s[|s| - 1]) {
      assert TrimStart(s) == s;
      assert TrimEnd(s) == s;
    }
  }

  /** Trimming twice is trimming once. */
  lemma TrimIdempotent(s: string)
    ensures Trim(Trim(s)) == Trim(s)
  {
    TrimShape(s);
    TrimFixedPoint(Trim(s));
  }

  /** `trim` yields the empty string exactly for strings made of trimmable
      characters only. */
  lemma {:induction false} TrimEmpty(s: string)
    ensures Trim(s) == [] <==> AllTrimmable(s)
  {
    TrimShape(s);
    if AllTrimmable(s) {
      TrimStartAllTrimmable(s);
    }
  }

  lemma {:induction false} TrimStartAllTrimmable(s: string)
    requires AllTrimmable(s)
    ensures TrimStart(s) == []
    decreases |s|
  {
    if s != [] {
      assert IsTrimmable(s[0]);
      assert AllTrimmable(s[1..]) by {
        forall i | 0 <= i < |s[1..]| ensures IsTrimmable(s[1..][i]) {
          assert s[1..][i] == s[i + 1];
        }
      }
      TrimStartAllTrimmable(s[1..]);
    }
  }

  /** `s.split(sep)` for a one-character separator: the maximal runs between
      separators, in order; there is always at least one piece, and an empty
      string splits into one empty piece. */
  function Split(s: string, sep: char): (pieces: seq<string>)
    ensures |pieces| >= 1
    decreases |s|
  {
    if s == [] then [[]]
    else
      var rest := Split(s[1..], sep);
      if s[0] == sep then [[]] + rest
      else [[s[0]] + rest[0]] + rest[1..]
  }

  /** No piece of a split contains the separator. */
  lemma {:induction false} SplitPiecesExcludeSeparator(s: string, sep: char)
    ensures forall piece <- Split(s, sep) :: sep !in piece
    decreases |s|
  {
    if s != [] {
      SplitPiecesExcludeSeparator(s[1..], sep);
    }
  }

  /** `pieces.join(sep)`: the pieces with one separator between neighbours. */
  function Join(pieces: seq<string>, sep: char): (s: string)
    ensures |pieces| >= 1 ==> |s| >= |pieces| - 1 + |pieces[0]|
    decreases |pieces|
  {
    if pieces == [] then []
    else if |pieces| == 1 then pieces[0]
    else pieces[0] + [sep] + Join(pieces[1..], sep)
  }

  /** Joining the pieces of a split with the same separator gives back the
      string that was split. */
  lemma {:induction false} JoinSplit(s: string, sep: char)
    ensures Join(Split(s, sep), sep) == s
    decreases |s|
  {
    if s != [] {
      var rest := Split(s[1..], sep);
      JoinSplit(s[1..], sep);
      if s[0] == sep {
        assert Split(s, sep) == [[]] + rest;
        assert ([[]] + rest)[1..] == rest;
      } else {
        JoinExtendFirst(s[0], rest, sep);
        assert [s[0]] + s[1..] == s;
      }
    }
  }

  /** Putting a character in front of the first piece puts it in front of
      the join. */
  lemma JoinExtendFirst(c: char, rest: seq<string>, sep: char)
    requires |rest| >= 1
    ensures Join([[c] + rest[0]] + rest[1..], sep) == [c] + Join(rest, sep)
  {
    var pieces := [[c] + rest[0]] + rest[1..];
    if |rest| > 1 {
      assert pieces[1..] == rest[1..];
    }
  }

  /** Splitting a join of separator-free pieces gives back those pieces. */
  lemma {:induction false} SplitJoin(pieces: seq<string>, sep: char)
    requires |pieces| >= 1
    requires forall piece <- pieces :: sep !in piece
    ensures Split(Join(pieces, sep), sep) == pieces
    decreases |pieces|
  {
    if |pieces| == 1 {
      SplitNoSeparator(pieces[0], sep);
    } else {
      SplitJoin(pieces[1..], sep);
      SplitFirstSeparator(pieces[0], Join(pieces[1..], sep), sep);
      assert [pieces[0]] + pieces[1..] == pieces;
    }
  }

  lemma {:induction false} SplitNoSeparator(s: string, sep: char)
    requires sep !in s
    ensures Split(s, sep) == [s]
    decreases |s|
  {
    if s != [] {
      SplitNoSeparator(s[1..], sep);
      assert [s[0]] + s[1..] == s;
    }
  }

  lemma {:induction false} SplitFirstSeparator(x: string, y: string, sep: char)
    requires sep !in x
    ensures Split(x + [sep] + y, sep) == [x] + Split(y, sep)
    decreases |x|
  {
    var s := x + [sep] + y;
    if x == [] {
      assert s[0] == sep && s[1..] == y;
    } else {
      SplitFirstSeparator(x[1..], y, sep);
      assert s[1..] == x[1..] + [sep] + y;
      assert s[0] == x[0] && s[0] != sep;
      assert [x[0]] + x[1..] == x;
    }
  }

  /** The decimal digit for `d`. */
  function DigitChar(d: nat): (c: char)
    requires d < 10
    ensures '0' <= c <= '9' && (c as int) - ('0' as int) == d
  {
    "0123456789"[d]
  }

  predicate IsDigits(s: string) {
    forall i :: 0 <= i < |s| ==> '0' <= s[i] <= '9'
  }

  /** How a template literal renders a non-negative integer number: its
      decimal digits, most significant first, without leading zeros. */
  function Decimal(n: nat): (r: string)
    ensures |r| >= 1 && IsDigits(r)
    ensures r[0] == '0' ==> r == "0"
    decreases n
  {
    if n < 10 then [DigitChar(n)] else Decimal(n / 10) + [DigitChar(n % 10)]
  }

  /** The value of a string of decimal digits. */
  function ParseDecimal(s: string): nat
    requires IsDigits(s)
    decreases |s|
  {
    if s == [] then 0
    else ParseDecimal(s[..|s| - 1]) * 10 + ((s[|s| - 1] as int) - ('0' as int))
  }

  /** Reading back a rendered number gives the number. */
  lemma {:induction false} DecimalRoundTrip(n: nat)
    ensures ParseDecimal(Decimal(n)) == n
    decreases n
  {
    if n >= 10 {
      DecimalRoundTrip(n / 10);
      var r := Decimal(n);
      assert r[..|r| - 1] == Decimal(n / 10);
    }
  }
}
