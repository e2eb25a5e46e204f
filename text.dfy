/** The JavaScript string built-ins the game relies on (`trim`, `toLowerCase`,
    `toUpperCase`, `split`, `padStart`, number-to-string), on `seq<char>`. */
module Text {
  import opened Optional

  // ---------------------------------------------------------------- trim

  /** The characters `String.prototype.trim` removes: ECMAScript's WhiteSpace
      (tab, vertical tab, form feed, space, no-break space, byte-order mark and
      every Zs space separator) and LineTerminator (LF, CR, U+2028, U+2029). */
  predicate IsWhitespace(c: char) {
    || c == '\t' || c == '\n' || c == '\U{B}' || c == '\U{C}' || c == '\r' || c == ' '
    || c == '\U{A0}' || c == '\U{1680}' || ('\U{2000}' <= c <= '\U{200A}')
    || c == '\U{2028}' || c == '\U{2029}' || c == '\U{202F}' || c == '\U{205F}'
    || c == '\U{3000}' || c == '\U{FEFF}'
  }

  predicate AllWhitespace(s: string) {
    forall i :: 0 <= i < |s| ==> IsWhitespace(s[i])
  }

  /** No whitespace at either end. */
  predicate Trimmed(s: string) {
    s == [] || (!IsWhitespace(s[0]) && !IsWhitespace(s[|s| - 1]))
  }

  function TrimStart(s: string): (r: string)
    ensures |r| <= |s| && r == s[|s| - |r|..]
    ensures AllWhitespace(s[..|s| - |r|])
    ensures r == [] || !IsWhitespace(r[0])
  {
    if s != [] && IsWhitespace(s[0]) then TrimStart(s[1..]) else s
  }

  function TrimEnd(s: string): (r: string)
    ensures |r| <= |s| && r == s[..|r|]
    ensures AllWhitespace(s[|r|..])
    ensures r == [] || !IsWhitespace(r[|r| - 1])
  {
    if s != [] && IsWhitespace(s[|s| - 1]) then TrimEnd(s[..|s| - 1]) else s
  }

  /** `s.trim()`: `s` without its leading and trailing whitespace. */
  function Trim(s: string): (r: string)
    ensures Trimmed(r)
    ensures |r| <= |s|
    ensures r == [] <==> AllWhitespace(s)
  {
    var t := TrimStart(s);
    var r := TrimEnd(t);
    assert r == [] ==> AllWhitespace(s) by {
      if r == [] {
        assert s == s[..|s| - |t|] + t;
        assert t == t[..0] + t[0..];
      }
    }
    r
  }

  /** Whitespace around a trimmed core is exactly what `trim` removes. */
  lemma TrimPadded(pre: string, core: string, post: string)
    requires AllWhitespace(pre) && AllWhitespace(post) && Trimmed(core)
    ensures Trim(pre + core + post) == core
  {
    var s := pre + core + post;
    var t := TrimStart(s);
    var d := |s| - |t|;
    if core == [] {
      assert AllWhitespace(s);
      assert Trim(s) == [];
    } else {
      assert s[|pre|] == core[0];
      assert AllWhitespace(s[..d]);
      assert d == |pre|;
      assert t == core + post;
      var r := TrimEnd(t);
      assert t[|core| - 1] == core[|core| - 1];
      assert AllWhitespace(t[|r|..]);
      assert |r| == |core|;
      assert r == t[..|core|] == core;
    }
  }

  /** Trimming twice is trimming once. */
  lemma TrimIdempotent(s: string)
    ensures Trim(Trim(s)) == Trim(s)
  {
    TrimPadded([], Trim(s), []);
    assert [] + Trim(s) + [] == Trim(s);
  }

  /** Where the trimmed text starts. */
  function TrimFrom(s: string): nat
  {
    |s| - |TrimStart(s)|
  }

  lemma TrimSlice(s: string)
    ensures TrimFrom(s) + |Trim(s)| <= |s|
    ensures Trim(s) == s[TrimFrom(s)..TrimFrom(s) + |Trim(s)|]
  {
  }

  /** Strings with whitespace in the same places trim to the same positions. */
  predicate SameSpacing(s: string, t: string) {
    |s| == |t| && forall i :: 0 <= i < |s| ==> (IsWhitespace(s[i]) <==> IsWhitespace(t[i]))
  }

  lemma {:induction false} TrimStartSameSpacing(s: string, t: string)
    requires SameSpacing(s, t)
    ensures |TrimStart(s)| == |TrimStart(t)|
  {
    if s != [] && IsWhitespace(s[0]) {
      TrimStartSameSpacing(s[1..], t[1..]);
    }
  }

  lemma {:induction false} TrimEndSameSpacing(s: string, t: string)
    requires SameSpacing(s, t)
    ensures |TrimEnd(s)| == |TrimEnd(t)|
  {
    if s != [] && IsWhitespace(s[|s| - 1]) {
      TrimEndSameSpacing(s[..|s| - 1], t[..|t| - 1]);
    }
  }

  lemma TrimSameSpacing(s: string, t: string)
    requires SameSpacing(s, t)
    ensures TrimFrom(s) == TrimFrom(t) && |Trim(s)| == |Trim(t)|
  {
    TrimStartSameSpacing(s, t);
    var k := TrimFrom(s);
    assert SameSpacing(TrimStart(s), TrimStart(t)) by {
      assert TrimStart(s) == s[k..] && TrimStart(t) == t[k..];
    }
    TrimEndSameSpacing(TrimStart(s), TrimStart(t));
  }

  // ---------------------------------------------------------------- case

  /** `toLowerCase` on one character; only the ASCII letters are mapped. */
  function ToLowerChar(c: char): char {
    if 'A' <= c <= 'Z' then (c as int + 32) as char else c
  }

  /** `toUpperCase` on one character; only the ASCII letters are mapped. */
  function ToUpperChar(c: char): char {
    if 'a' <= c <= 'z' then (c as int - 32) as char else c
  }

  function ToLower(s: string): (r: string)
    ensures |r| == |s|
    ensures forall i :: 0 <= i < |s| ==> r[i] == ToLowerChar(s[i])
  {
    seq(|s|, i requires 0 <= i < |s| => ToLowerChar(s[i]))
  }

  function ToUpper(s: string): (r: string)
    ensures |r| == |s|
    ensures forall i :: 0 <= i < |s| ==> r[i] == ToUpperChar(s[i])
  {
    seq(|s|, i requires 0 <= i < |s| => ToUpperChar(s[i]))
  }

  /** On one character: lower-casing forgets an earlier case change, and
      neither mapping touches whitespace. */
  lemma CharCase(c: char)
    ensures ToLowerChar(ToLowerChar(c)) == ToLowerChar(c)
    ensures ToLowerChar(ToUpperChar(c)) == ToLowerChar(c)
    ensures IsWhitespace(ToLowerChar(c)) <==> IsWhitespace(c)
    ensures IsWhitespace(ToUpperChar(c)) <==> IsWhitespace(c)
  {
  }

  /** Changing case never creates or removes whitespace. */
  lemma CaseKeepsSpacing(s: string)
    ensures SameSpacing(s, ToLower(s)) && SameSpacing(s, ToUpper(s))
  {
    forall i | 0 <= i < |s| ensures IsWhitespace(ToLower(s)[i]) <==> IsWhitespace(s[i])
      ensures IsWhitespace(ToUpper(s)[i]) <==> IsWhitespace(s[i])
    {
      CharCase(s[i]);
    }
  }

  /** Lower-casing forgets any earlier case change. */
  lemma ToLowerForgetsCase(s: string)
    ensures ToLower(ToLower(s)) == ToLower(s)
    ensures ToLower(ToUpper(s)) == ToLower(s)
  {
    forall i | 0 <= i < |s| ensures ToLower(ToLower(s))[i] == ToLower(s)[i]
      ensures ToLower(ToUpper(s))[i] == ToLower(s)[i]
    {
      CharCase(s[i]);
    }
  }

  // ---------------------------------------------------------------- numbers

  predicate IsDigit(c: char) { '0' <= c <= '9' }

  predicate AllDigits(s: string) {
    forall i :: 0 <= i < |s| ==> IsDigit(s[i])
  }

  function DigitChar(d: nat): (c: char)
    requires d < 10
    ensures IsDigit(c) && c as int - '0' as int == d
  {
    ('0' as int + d) as char
  }

  /** The decimal digits of `n`, as `Number.prototype.toString` writes a
      non-negative integer: at least one digit and no leading zero. */
  function NatToString(n: nat): (r: string)
    ensures |r| >= 1 && AllDigits(r)
    ensures r[0] == '0' ==> r == "0"
    ensures n < 10 <==> |r| == 1
  {
    if n < 10 then [DigitChar(n)] else NatToString(n / 10) + [DigitChar(n % 10)]
  }

  /** The value of a string of decimal digits; the inverse of `NatToString`. */
  function ParseNat(s: string): nat
    requires AllDigits(s)
  {
    if s == [] then 0 else 10 * ParseNat(s[..|s| - 1]) + (s[|s| - 1] as int - '0' as int)
  }

  lemma {:induction false} ParseNatToString(n: nat)
    ensures ParseNat(NatToString(n)) == n
  {
    if n >= 10 {
      var r := NatToString(n);
      assert r[..|r| - 1] == NatToString(n / 10);
      ParseNatToString(n / 10);
    }
  }

  /** `Number.prototype.toString` on an integer. */
  function IntToString(i: int): (r: string)
    ensures i >= 0 ==> |r| >= 1 && AllDigits(r) && ParseNat(r) == i && (r[0] == '0' ==> r == "0")
    ensures i < 0 ==> |r| >= 2 && r[0] == '-' && AllDigits(r[1..]) && ParseNat(r[1..]) == -i && r[1] != '0'
  {
    if i < 0 then
      var d := NatToString(-i);
      ParseNatToString(-i);
      assert ("-" + d)[1..] == d;
      "-" + d
    else
      ParseNatToString(i);
      NatToString(i)
  }

  /** `s.padStart(2, '0')`. */
  function PadStart2(s: string): (r: string)
    ensures |r| == Max(2, |s|)
    ensures r[|r| - |s|..] == s
    ensures forall i :: 0 <= i < |r| - |s| ==> r[i] == '0'
  {
    if |s| >= 2 then s else seq(2 - |s|, _ => '0') + s
  }

  // ---------------------------------------------------------------- split

  /** The parts joined back together with `sep` between them. */
  function Join(parts: seq<string>, sep: char): string
    requires |parts| >= 1
  {
    if |parts| == 1 then parts[0] else parts[0] + [sep] + Join(parts[1..], sep)
  }

  lemma JoinConsHead(c: char, w: string, tail: seq<string>, sep: char)
    ensures Join([[c] + w] + tail, sep) == [c] + Join([w] + tail, sep)
  {
    var ps := [[c] + w] + tail;
    if tail != [] {
      assert ps[1..] == tail == ([w] + tail)[1..];
    }
  }

  /** `s.split(sep)` with a one-character separator: the maximal pieces of `s`
      without `sep`, of which there is always at least one. */
  function Split(s: string, sep: char): (parts: seq<string>)
    ensures |parts| >= 1
    ensures forall i :: 0 <= i < |parts| ==> sep !in parts[i]
    ensures Join(parts, sep) == s
  {
    if s == [] then [[]]
    else
      var rest := Split(s[1..], sep);
      if s[0] == sep then
        assert ([[]] + rest)[1..] == rest;
        [[]] + rest
      else
        JoinConsHead(s[0], rest[0], rest[1..], sep);
        assert [rest[0]] + rest[1..] == rest;
        [[s[0]] + rest[0]] + rest[1..]
  }

  /** Splitting a join of separator-free parts gives the parts back. */
  lemma {:induction false} SplitJoin(parts: seq<string>, sep: char)
    requires |parts| >= 1
    requires forall i :: 0 <= i < |parts| ==> sep !in parts[i]
    ensures Split(Join(parts, sep), sep) == parts
    decreases |parts|, |parts[0]|
  {
    var w := parts[0];
    if w == [] {
      if |parts| > 1 {
        SplitJoin(parts[1..], sep);
        assert Join(parts, sep) == [sep] + Join(parts[1..], sep);
        assert ([sep] + Join(parts[1..], sep))[1..] == Join(parts[1..], sep);
        assert [[]] + parts[1..] == parts;
      }
    } else {
      var next := [w[1..]] + parts[1..];
      assert [w[0]] + w[1..] == w;
      JoinConsHead(w[0], w[1..], parts[1..], sep);
      assert Join(parts, sep) == [w[0]] + Join(next, sep);
      assert forall i :: 0 <= i < |next| ==> sep !in next[i] by {
        forall i | 0 <= i < |next| ensures sep !in next[i] {
          if i == 0 {
            assert sep !in w;
          } else {
            assert next[i] == parts[i];
          }
        }
      }
      SplitJoin(next, sep);
      assert ([w[0]] + Join(next, sep))[1..] == Join(next, sep);
      assert parts == [[w[0]] + next[0]] + next[1..];
    }
  }
}
