/** The pieces of `java.lang.String`, `Integer` and 32-bit `int` arithmetic that
    the library relies on, written out so that their edge cases are explicit:
    `split(" ")`, `trim()`, `indexOf`, `compareTo`, `Integer.toString` and
    `Integer.parseInt`. */
module JavaText {
  import opened Wrappers

  const IntMin: int := -0x8000_0000
  const IntMax: int := 0x7fff_ffff

  /** Values of Java's `int`. */
  type Int32 = x: int | -0x8000_0000 <= x <= 0x7fff_ffff

  /** Java `int` addition result: two's-complement wrap-around into 32 bits. */
  function Wrap32(x: int): (r: Int32)
    ensures IntMin <= x <= IntMax ==> r == x
    ensures x == IntMax + 1 ==> r == IntMin
  {
    ((x + 0x8000_0000) % 0x1_0000_0000) - 0x8000_0000
  }

  // ---------------------------------------------------------------------------
  // split(" ")

  /** The pieces of `s` between single spaces, empty pieces included. */
  function Pieces(s: string): (r: seq<string>)
    ensures |r| >= 1
  {
    if s == [] then [""]
    else if s[0] == ' ' then [""] + Pieces(s[1..])
    else
      var rest := Pieces(s[1..]);
      [[s[0]] + rest[0]] + rest[1..]
  }

  function DropTrailingEmpty(ps: seq<string>): (r: seq<string>)
    ensures |r| <= |ps| && r == ps[..|r|]
    ensures r == [] || r[|r| - 1] != ""
  {
    if ps == [] then []
    else if ps[|ps| - 1] == "" then DropTrailingEmpty(ps[..|ps| - 1])
    else ps
  }

  /** `s.split(" ")`: when `s` holds no space the result is `s` itself (even an
      empty `s`); otherwise the pieces between spaces, with trailing empty pieces
      removed (so a string of spaces only splits into nothing). */
  function Split(s: string): (r: seq<string>)
    ensures ' ' !in s ==> |r| == 1
    ensures ' ' in s ==> r == [] || r[|r| - 1] != ""
  {
    if ' ' !in s then [s] else DropTrailingEmpty(Pieces(s))
  }

  /** The pieces joined back with single spaces. */
  function JoinWithSpaces(ps: seq<string>): string
  {
    if ps == [] then "" else if |ps| == 1 then ps[0] else ps[0] + " " + JoinWithSpaces(ps[1..])
  }

  lemma {:induction false} PiecesTokensHaveNoSpace(s: string)
    ensures forall k :: 0 <= k < |Pieces(s)| ==> ' ' !in Pieces(s)[k]
  {
    if s != [] {
      PiecesTokensHaveNoSpace(s[1..]);
    }
  }

  /** Joining the pieces with spaces gives the original string back. */
  lemma {:induction false} PiecesJoin(s: string)
    ensures JoinWithSpaces(Pieces(s)) == s
  {
    if s != [] {
      var rest := Pieces(s[1..]);
      PiecesJoin(s[1..]);
      assert s == [s[0]] + s[1..];
      if s[0] == ' ' {
        JoinCons("", rest);
      } else {
        JoinExtendsFirst(s[0], rest);
      }
    }
  }

  /** A piece in front adds itself and a space. */
  lemma JoinCons(a: string, ps: seq<string>)
    requires |ps| >= 1
    ensures JoinWithSpaces([a] + ps) == a + " " + JoinWithSpaces(ps)
  {
    assert ([a] + ps)[1..] == ps;
  }

  /** A character put in front of the first piece is put in front of the
      joined text. */
  lemma JoinExtendsFirst(c: char, ps: seq<string>)
    requires |ps| >= 1
    ensures JoinWithSpaces([[c] + ps[0]] + ps[1..]) == [c] + JoinWithSpaces(ps)
  {
    var p := [[c] + ps[0]] + ps[1..];
    if |ps| > 1 {
      assert p[1..] == ps[1..];
    }
  }

  /** A space-free prefix ending at a space is exactly the first piece. */
  lemma {:induction false} PiecesOfWordThenSpace(w: string, rest: string)
    requires ' ' !in w
    ensures Pieces(w + " " + rest) == [w] + Pieces(rest)
  {
    if w == [] {
      assert w + " " + rest == [' '] + rest;
    } else {
      assert (w + " " + rest)[1..] == w[1..] + " " + rest;
      PiecesOfWordThenSpace(w[1..], rest);
      assert [w[0]] + w[1..] == w;
    }
  }

  /** A space-free word is a single piece. */
  lemma {:induction false} PiecesOfWord(w: string)
    requires ' ' !in w
    ensures Pieces(w) == [w]
  {
    if w != [] {
      PiecesOfWord(w[1..]);
      assert [w[0]] + w[1..] == w;
    }
  }

  /** Two space-free words, the second non-empty, split back into those words. */
  lemma SplitTwoWords(f: string, l: string)
    requires ' ' !in f && ' ' !in l && l != ""
    ensures Split(f + " " + l) == [f, l]
  {
    var s := f + " " + l;
    assert s[|f|] == ' ';
    PiecesOfWordThenSpace(f, l);
    PiecesOfWord(l);
    assert Pieces(s) == [f, l];
  }

  /** Every token of a split is free of spaces. */
  lemma SplitTokensHaveNoSpace(s: string)
    ensures forall k :: 0 <= k < |Split(s)| ==> ' ' !in Split(s)[k]
  {
    PiecesTokensHaveNoSpace(s);
  }

  // ---------------------------------------------------------------------------
  // trim()

  /** The characters `trim()` removes: code points up to and including ' '. */
  predicate IsTrimmed(c: char) { c <= ' ' }

  function TrimStart(s: string): (r: string)
    ensures |r| <= |s| && r == s[|s| - |r|..]
    ensures r == [] || !IsTrimmed(r[0])
  {
    if s != [] && IsTrimmed(s[0]) then TrimStart(s[1..]) else s
  }

  function TrimEnd(s: string): (r: string)
    ensures |r| <= |s| && r == s[..|r|]
    ensures r == [] || !IsTrimmed(r[|r| - 1])
  {
    if s != [] && IsTrimmed(s[|s| - 1]) then TrimEnd(s[..|s| - 1]) else s
  }

  /** `s.trim()`: `s` without its leading and trailing characters up to ' '. */
  function Trim(s: string): (r: string)
    ensures r == [] || (!IsTrimmed(r[0]) && !IsTrimmed(r[|r| - 1]))
    ensures |r| <= |s|
  {
    TrimEnd(TrimStart(s))
  }

  /** What `trim()` keeps is the slice of `s` that starts right after its
      leading run of characters up to ' '. */
  lemma TrimIsSlice(s: string)
    ensures var i := |s| - |TrimStart(s)|; i + |Trim(s)| <= |s| && Trim(s) == s[i..i + |Trim(s)|]
  {
    PrefixOfSuffix(s, TrimStart(s), Trim(s));
  }

  /** A prefix `r` of a suffix `t` of `s` is the slice of `s` starting where
      `t` does. */
  lemma PrefixOfSuffix(s: string, t: string, r: string)
    requires |t| <= |s| && t == s[|s| - |t|..] && |r| <= |t| && r == t[..|r|]
    ensures |s| - |t| + |r| <= |s| && r == s[|s| - |t|..|s| - |t| + |r|]
  {
    var i := |s| - |t|;
    forall k | 0 <= k < |r| ensures r[k] == s[i + k] {
      assert r[k] == t[k] == s[i + k];
    }
  }

  /** Everything `trim()` cuts before that slice is a character up to ' '. */
  lemma TrimCutsLeadingBlanks(s: string)
    ensures forall k :: 0 <= k < |s| - |TrimStart(s)| ==> IsTrimmed(s[k])
  {
    forall k | 0 <= k < |s| - |TrimStart(s)| ensures IsTrimmed(s[k]) {
      TrimStartDrops(s, k);
    }
  }

  /** Everything `trim()` cuts after that slice is a character up to ' ';
      with the ends of `Trim(s)`, the result is pinned down. */
  lemma TrimCutsTrailingBlanks(s: string)
    ensures forall k :: |s| - |TrimStart(s)| + |Trim(s)| <= k < |s| ==> IsTrimmed(s[k])
  {
    var t := TrimStart(s);
    var i := |s| - |t|;
    assert Trim(s) == TrimEnd(t);
    forall k | i + |TrimEnd(t)| <= k < |s| ensures IsTrimmed(s[k]) {
      TrimEndDrops(t, k - i);
      assert s[k] == t[k - i];
    }
  }

  /** Every character `TrimStart` drops is one up to ' '. */
  lemma {:induction false} TrimStartDrops(s: string, k: nat)
    requires k < |s| - |TrimStart(s)|
    ensures IsTrimmed(s[k])
  {
    if k > 0 {
      var u := s[1..];
      assert TrimStart(s) == TrimStart(u);
      TrimStartDrops(u, k - 1);
      assert s[k] == u[k - 1];
    }
  }

  /** Every character `TrimEnd` drops is one up to ' '. */
  lemma {:induction false} TrimEndDrops(s: string, k: nat)
    requires |TrimEnd(s)| <= k < |s|
    ensures IsTrimmed(s[k])
  {
    if k < |s| - 1 {
      var u := s[..|s| - 1];
      assert TrimEnd(s) == TrimEnd(u);
      TrimEndDrops(u, k);
      assert s[k] == u[k];
    }
  }

  lemma {:induction false} TrimStartKeeps(s: string)
    requires s == [] || !IsTrimmed(s[0])
    ensures TrimStart(s) == s
  {
  }

  lemma {:induction false} TrimEndKeeps(s: string)
    requires s == [] || !IsTrimmed(s[|s| - 1])
    ensures TrimEnd(s) == s
  {
  }

  /** A string that starts with a character that `trim()` keeps still starts
      with it after trimming. */
  lemma {:induction false} TrimKeepsFirst(s: string)
    requires s != [] && !IsTrimmed(s[0])
    ensures Trim(s) != [] && Trim(s)[0] == s[0]
  {
    TrimStartKeeps(s);
    TrimEndNonEmpty(s);
  }

  lemma {:induction false} TrimEndNonEmpty(s: string)
    requires s != [] && !IsTrimmed(s[0])
    ensures TrimEnd(s) != [] && TrimEnd(s)[0] == s[0]
  {
    if IsTrimmed(s[|s| - 1]) {
      assert |s| > 1;
      TrimEndNonEmpty(s[..|s| - 1]);
    }
  }

  // ---------------------------------------------------------------------------
  // indexOf(str, fromIndex)

  /** `pat` occurs in `s` starting at position `p`. */
  predicate OccursAt(s: string, pat: string, p: nat)
  {
    p + |pat| <= |s| && s[p..p + |pat|] == pat
  }

  /** `s.indexOf(pat, from)` for a non-empty `pat` and `from <= |s|`: the first
      position at or after `from` where `pat` occurs, or -1. */
  function IndexOf(s: string, pat: string, from: nat): (r: int)
    requires |pat| > 0 && from <= |s|
    decreases |s| - from
    ensures r == -1 || (from <= r && OccursAt(s, pat, r))
    ensures forall p: nat :: from <= p && (r == -1 || p < r) ==> !OccursAt(s, pat, p)
  {
    if from + |pat| > |s| then -1
    else if s[from..from + |pat|] == pat then from
    else IndexOf(s, pat, from + 1)
  }

  // ---------------------------------------------------------------------------
  // compareTo: lexicographic order

  /** `a.compareTo(b) <= 0`: lexicographic by character code, a proper prefix
      first. */
  predicate LexLe(a: string, b: string)
    ensures a <= b ==> LexLe(a, b)
  {
    a == [] || (b != [] && (a[0] < b[0] || (a[0] == b[0] && LexLe(a[1..], b[1..]))))
  }

  lemma {:induction false} LexLeReflexive(a: string)
    ensures LexLe(a, a)
  {
    if a != [] { LexLeReflexive(a[1..]); }
  }

  lemma {:induction false} LexLeTotal(a: string, b: string)
    ensures LexLe(a, b) || LexLe(b, a)
  {
    if a != [] && b != [] && a[0] == b[0] { LexLeTotal(a[1..], b[1..]); }
  }

  lemma {:induction false} LexLeTransitive(a: string, b: string, c: string)
    requires LexLe(a, b) && LexLe(b, c)
    ensures LexLe(a, c)
  {
    if a != [] && b != [] && c != [] && a[0] == b[0] == c[0] {
      LexLeTransitive(a[1..], b[1..], c[1..]);
    }
  }

  lemma {:induction false} LexLeAntisymmetric(a: string, b: string)
    requires LexLe(a, b) && LexLe(b, a)
    ensures a == b
  {
    if a != [] && b != [] {
      LexLeAntisymmetric(a[1..], b[1..]);
      assert a == [a[0]] + a[1..] && b == [b[0]] + b[1..];
    }
  }

  // ---------------------------------------------------------------------------
  // Integer.toString and Integer.parseInt

  predicate IsDigit(c: char) { '0' <= c <= '9' }

  predicate AllDigits(s: string) { forall k :: 0 <= k < |s| ==> IsDigit(s[k]) }

  function DigitChar(d: nat): (c: char)
    requires d < 10
    ensures IsDigit(c) && c as int - '0' as int == d
  {
    ('0' as int + d) as char
  }

  /** Decimal digits of `n`, most significant first, without leading zeros. */
  function NatToString(n: nat): (r: string)
    ensures |r| >= 1 && AllDigits(r)
  {
    if n < 10 then [DigitChar(n)] else NatToString(n / 10) + [DigitChar(n % 10)]
  }

  /** `Integer.toString(n)`: a '-' sign for negatives, then the digits. */
  function IntToString(n: int): string
  {
    if n < 0 then "-" + NatToString(-n) else NatToString(n)
  }

  /** The number a string of decimal digits denotes. */
  function DigitsValue(s: string): nat
    requires AllDigits(s)
  {
    if s == [] then 0 else DigitsValue(s[..|s| - 1]) * 10 + (s[|s| - 1] as int - '0' as int)
  }

  /** `Integer.parseInt(s)` limited to ASCII digits: an optional '+' or '-', at
      least one digit, and a value that fits an `int`; `None` stands for
      `NumberFormatException`. */
  function ParseInt(s: string): (r: Option<int>)
    ensures r.Some? ==> IntMin <= r.value <= IntMax
    ensures r.Some? ==>
      (s != [] && (s[0] == '-' || s[0] == '+' || IsDigit(s[0])) && AllDigits(s[1..]) && (IsDigit(s[0]) || |s| >= 2))
    ensures r.Some? ==> s != [] && (r.value < 0 ==> s[0] == '-')
  {
    if s == [] then None
    else
      var body := if s[0] == '-' || s[0] == '+' then s[1..] else s;
      if body == [] || !AllDigits(body) then None
      else
        var v: int := if s[0] == '-' then -(DigitsValue(body) as int) else DigitsValue(body);
        if IntMin <= v <= IntMax then Some(v) else None
  }

  /** Conversely, a sign ("", "+" or "-") followed by at least one digit is
      read as the signed value of the digits, leading zeros included, exactly
      when that value fits an `int`. */
  lemma ParseIntSignedDigits(sign: string, digits: string)
    requires sign == "" || sign == "+" || sign == "-"
    requires digits != [] && AllDigits(digits)
    ensures var v := if sign == "-" then -(DigitsValue(digits) as int) else DigitsValue(digits) as int;
      ParseInt(sign + digits) == if IntMin <= v <= IntMax then Some(v) else None
  {
    var s := sign + digits;
    if sign == "" {
      assert s == digits && s[0] != '-' && s[0] != '+';
    } else {
      assert s[0] == sign[0] && s[1..] == digits;
    }
  }

  lemma {:induction false} DigitsRoundTrip(n: nat)
    ensures DigitsValue(NatToString(n)) == n
  {
    if n >= 10 {
      DigitsRoundTrip(n / 10);
      var s := NatToString(n);
      assert s[..|s| - 1] == NatToString(n / 10);
    }
  }

  /** `Integer.parseInt(Integer.toString(n)) == n` for every `int`. */
  lemma ParseIntRoundTrip(n: Int32)
    ensures ParseInt(IntToString(n)) == Some(n)
  {
    var s := IntToString(n);
    if n < 0 {
      var m: nat := -(n as int);
      var d := NatToString(m);
      DigitsRoundTrip(m);
      assert s == "-" + d && s[0] == '-' && s[1..] == d;
      assert -(DigitsValue(d) as int) == n;
    } else {
      var d := NatToString(n);
      DigitsRoundTrip(n);
      assert s == d && IsDigit(d[0]);
      assert d[0] != '-' && d[0] != '+';
    }
  }

  /** Distinct `int`s print differently. */
  lemma IntToStringInjective(a: Int32, b: Int32)
    requires IntToString(a) == IntToString(b)
    ensures a == b
  {
    ParseIntRoundTrip(a);
    ParseIntRoundTrip(b);
  }
}
