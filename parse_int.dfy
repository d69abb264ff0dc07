/** `Number.parseInt` called without a radix (ECMA-262, section 19.2.5) and
    the node's clamping helper `Mp4fragNode.getInt` built on it. */
module ParseInt {
  import opened Wrappers
  import opened JsValues

  /** The WhiteSpace and LineTerminator code points (ECMA-262, sections 12.2
      and 12.3): the characters TrimString removes. */
  predicate IsStrWhiteSpaceChar(c: char) {
    || c == '\U{9}' || c == '\U{B}' || c == '\U{C}' || c == ' ' || c == '\U{A0}' || c == '\U{FEFF}'
    || c == '\U{1680}' || '\U{2000}' <= c <= '\U{200A}' || c == '\U{202F}' || c == '\U{205F}' || c == '\U{3000}'
    || c == '\U{A}' || c == '\U{D}' || c == '\U{2028}' || c == '\U{2029}'
  }

  predicate AllWhiteSpace(w: string) {
    forall i :: 0 <= i < |w| ==> IsStrWhiteSpaceChar(w[i])
  }

  /** TrimString(s, start): `s` without its leading white space */
  function TrimStart(s: string): string {
    if s != [] && IsStrWhiteSpaceChar(s[0]) then TrimStart(s[1..]) else s
  }

  /** TrimStart removes exactly the white space at the front: what it drops is
      white space and what it keeps is a suffix that starts with something else. */
  lemma {:induction false} TrimStartRemovesLeadingWhiteSpace(s: string)
    ensures |TrimStart(s)| <= |s|
    ensures TrimStart(s) == s[|s| - |TrimStart(s)|..]
    ensures AllWhiteSpace(s[..|s| - |TrimStart(s)|])
    ensures TrimStart(s) == [] || !IsStrWhiteSpaceChar(TrimStart(s)[0])
  {
    if s != [] && IsStrWhiteSpaceChar(s[0]) {
      var t := s[1..];
      TrimStartRemovesLeadingWhiteSpace(t);
      assert TrimStart(s) == TrimStart(t);
      var k := |s| - |TrimStart(s)|;
      assert s[k..] == t[k - 1..];
      forall i | 0 <= i < k
        ensures IsStrWhiteSpaceChar(s[..k][i])
      {
        if i > 0 {
          assert s[..k][i] == t[..k - 1][i - 1];
        }
      }
    }
  }

  /** The value of `c` as a digit of radix up to 36 ('0'-'9', then 'a'-'z'
      or 'A'-'Z' for 10 to 35); 36 when `c` is no digit at all. */
  function DigitValue(c: char): (d: nat)
    ensures d <= 36
    ensures d < 10 <==> IsDecimalDigit(c)
  {
    if '0' <= c <= '9' then c as int - '0' as int
    else if 'a' <= c <= 'z' then c as int - 'a' as int + 10
    else if 'A' <= c <= 'Z' then c as int - 'A' as int + 10
    else 36
  }

  predicate IsRadixDigit(c: char, radix: nat) {
    DigitValue(c) < radix
  }

  /** The length of the longest prefix of `s` made of radix-`radix` digits */
  function DigitPrefixLength(s: string, radix: nat): (k: nat)
    ensures k <= |s|
    ensures forall i :: 0 <= i < k ==> IsRadixDigit(s[i], radix)
    ensures k == |s| || !IsRadixDigit(s[k], radix)
  {
    if s != [] && IsRadixDigit(s[0], radix) then 1 + DigitPrefixLength(s[1..], radix) else 0
  }

  /** The integer that the digit string `z` denotes in radix `radix` */
  function DigitsValue(z: string, radix: nat): nat {
    if z == [] then 0 else DigitsValue(z[..|z| - 1], radix) * radix + DigitValue(z[|z| - 1])
  }

  /** A "0x" or "0X" prefix, which switches the parse to radix 16 */
  predicate HasHexPrefix(s: string) {
    |s| >= 2 && s[0] == '0' && (s[1] == 'x' || s[1] == 'X')
  }

  /** The longest radix-`radix` digit prefix of `s` read as an integer; None
      (NaN) when `s` does not start with such a digit. */
  function ParseDigits(s: string, radix: nat): (r: Option<nat>)
    ensures r.None? <==> s == [] || !IsRadixDigit(s[0], radix)
  {
    var end := DigitPrefixLength(s, radix);
    if end == 0 then None else Some(DigitsValue(s[..end], radix))
  }

  /** Steps 8 to 14 with `radix` undefined: radix 16 after a hexadecimal
      prefix, which is then skipped, radix 10 otherwise. */
  function ParseUnsigned(s: string): Option<nat> {
    if HasHexPrefix(s) then ParseDigits(s[2..], 16) else ParseDigits(s, 10)
  }

  /** Steps 3 to 5 and 16: a leading '-' negates, a leading '+' is skipped. */
  function ParseSigned(s: string): Option<int> {
    if s != [] && s[0] == '-' then
      match ParseUnsigned(s[1..])
      case None => None
      case Some(m) => Some(-(m as int))
    else if s != [] && s[0] == '+' then
      match ParseUnsigned(s[1..])
      case None => None
      case Some(m) => Some(m)
    else
      match ParseUnsigned(s)
      case None => None
      case Some(m) => Some(m)
  }

  /** parseInt(string, radix) with `radix` undefined (ECMA-262, section
      19.2.5), after ToString: leading white space is skipped (step 2); NaN
      is None. The result is not rounded to a double (see README). */
  function ParseIntString(input: string): Option<int> {
    ParseSigned(TrimStart(input))
  }

  /** Number.parseInt(val): ToString first, then the parse */
  function ParseInt(val: JsValue): Option<int> {
    ParseIntString(ToString(val))
  }

  /** Mp4fragNode.getInt (mp4frag.js:894-898): `def` when the parse gives NaN,
      otherwise the parsed integer clamped into [min, max]. */
  function GetInt(min: int, max: int, def: int, val: JsValue): (r: int)
    ensures ParseInt(val).None? ==> r == def
    ensures ParseInt(val).Some? && min <= max ==>
              min <= r <= max && (r == ParseInt(val).value <==> min <= ParseInt(val).value <= max)
    ensures ParseInt(val).Some? && ParseInt(val).value < min ==> r == min
    ensures ParseInt(val).Some? && min <= max < ParseInt(val).value ==> r == max
  {
    match ParseInt(val)
    case None => def
    case Some(i) => if i < min then min else if i > max then max else i
  }

  lemma {:induction false} DigitsValueOfDecimal(n: nat)
    ensures DigitsValue(Decimal(n), 10) == n
  {
    var z := Decimal(n);
    if n >= 10 {
      DigitsValueOfDecimal(n / 10);
      assert z[..|z| - 1] == Decimal(n / 10);
    }
  }

  lemma {:induction false} DigitPrefixOfDigits(s: string)
    requires forall i :: 0 <= i < |s| ==> IsDecimalDigit(s[i])
    ensures DigitPrefixLength(s, 10) == |s|
  {
    if s != [] {
      DigitPrefixOfDigits(s[1..]);
    }
  }

  lemma ParseUnsignedDecimal(m: nat)
    ensures ParseUnsigned(Decimal(m)) == Some(m)
  {
    var d := Decimal(m);
    DigitPrefixOfDigits(d);
    DigitsValueOfDecimal(m);
    assert d[..|d|] == d;
    assert !HasHexPrefix(d);
  }

  lemma ToStringOfPlainNumber(n: int)
    requires -ExponentThreshold < n < ExponentThreshold
    ensures ToString(Number(n)) == if n < 0 then "-" + Decimal(-n) else Decimal(n)
  {
  }

  /** A string that starts with a digit, bare or after a minus sign, is read
      by ParseUnsigned alone. */
  lemma ParseIntStringOfDigits(d: string)
    requires d != [] && IsDecimalDigit(d[0])
    ensures ParseIntString(d) == ParseSigned(d) == ParseUnsigned(d)
    ensures ParseIntString("-" + d) == match ParseUnsigned(d) case None => None case Some(m) => Some(-(m as int))
  {
    var t := "-" + d;
    assert t[0] == '-' && t[1..] == d;
    assert TrimStart(t) == t;
    assert TrimStart(d) == d;
  }

  /** Reading back what Number::toString writes for an integer in plain
      decimal notation gives that integer. */
  lemma DecimalRoundTrip(n: int)
    requires -ExponentThreshold < n < ExponentThreshold
    ensures ParseInt(Number(n)) == Some(n)
  {
    var m: nat := if n < 0 then -n else n;
    ToStringOfPlainNumber(n);
    ParseUnsignedDecimal(m);
    ParseIntStringOfDigits(Decimal(m));
  }

  /** getInt is idempotent on its own results (the continuous writer passes
      its clamped time limit and pre-buffer back through getInt on every
      restart, mp4frag.js:713-715, 783). */
  lemma GetIntIdempotent(min: int, max: int, def: int, val: JsValue)
    requires min <= def <= max
    requires -ExponentThreshold < min && max < ExponentThreshold
    ensures GetInt(min, max, def, Number(GetInt(min, max, def, val))) == GetInt(min, max, def, val)
  {
    DecimalRoundTrip(GetInt(min, max, def, val));
  }

  lemma {:induction false} TrimStartSkipsWhiteSpace(ws: string, s: string)
    requires AllWhiteSpace(ws)
    ensures TrimStart(ws + s) == TrimStart(s)
  {
    if ws != [] {
      var t := ws + s;
      assert t[0] == ws[0] && IsStrWhiteSpaceChar(t[0]);
      assert t[1..] == ws[1..] + s;
      calc {
        TrimStart(t);
        TrimStart(t[1..]);
        { TrimStartSkipsWhiteSpace(ws[1..], s); }
        TrimStart(s);
      }
    } else {
      assert ws + s == s;
    }
  }

  /** Leading white space never changes what parseInt returns. */
  lemma LeadingWhiteSpaceIgnored(ws: string, s: string)
    requires AllWhiteSpace(ws)
    ensures ParseIntString(ws + s) == ParseIntString(s)
  {
    TrimStartSkipsWhiteSpace(ws, s);
  }

  lemma {:induction false} DigitPrefixStops(d: string, t: string, radix: nat)
    requires forall i :: 0 <= i < |d| ==> IsRadixDigit(d[i], radix)
    requires t == [] || !IsRadixDigit(t[0], radix)
    ensures DigitPrefixLength(d + t, radix) == |d|
  {
    if d == [] {
      assert d + t == t;
    } else {
      assert (d + t)[0] == d[0] && (d + t)[1..] == d[1..] + t;
      DigitPrefixStops(d[1..], t, radix);
    }
  }

  /** parseInt reads the longest digit prefix and ignores whatever follows
      it: the value of digits `d` is the same with or without a tail `t`
      that does not start with another digit. */
  lemma TrailingCharactersIgnored(d: string, t: string, radix: nat)
    requires d != [] && forall i :: 0 <= i < |d| ==> IsRadixDigit(d[i], radix)
    requires t == [] || !IsRadixDigit(t[0], radix)
    ensures ParseDigits(d + t, radix) == Some(DigitsValue(d, radix))
  {
    DigitPrefixStops(d, t, radix);
    assert (d + t)[..|d|] == d;
  }

  /** A run of decimal digits, after any white space and an optional '+',
      reads as its value; whatever follows the run is ignored. The run must
      not be a "0x" prefix, which switches the radix. SignedDigits adds the
      '-' case. */
  lemma DecimalDigitsRead(ws: string, d: string, t: string)
    requires AllWhiteSpace(ws)
    requires d != [] && forall i :: 0 <= i < |d| ==> IsDecimalDigit(d[i])
    requires t == [] || !IsRadixDigit(t[0], 10)
    requires !HasHexPrefix(d + t)
    ensures ParseIntString(ws + (d + t)) == Some(DigitsValue(d, 10))
    ensures ParseIntString(ws + ("+" + (d + t))) == Some(DigitsValue(d, 10))
  {
    DigitRunRead(d, t);
    SignedDigits(ws, d + t, DigitsValue(d, 10));
  }

  lemma DigitRunRead(d: string, t: string)
    requires d != [] && forall i :: 0 <= i < |d| ==> IsDecimalDigit(d[i])
    requires t == [] || !IsRadixDigit(t[0], 10)
    requires !HasHexPrefix(d + t)
    ensures d + t != [] && IsDecimalDigit((d + t)[0])
    ensures ParseUnsigned(d + t) == Some(DigitsValue(d, 10))
  {
    assert (d + t)[0] == d[0];
    TrailingCharactersIgnored(d, t, 10);
  }

  /** A string that starts with a digit reads the same bare and after '+',
      and negated after '-', with or without white space before it. */
  lemma SignedDigits(ws: string, u: string, m: nat)
    requires AllWhiteSpace(ws)
    requires u != [] && IsDecimalDigit(u[0]) && ParseUnsigned(u) == Some(m)
    ensures ParseIntString(ws + u) == Some(m)
    ensures ParseIntString(ws + ("-" + u)) == Some(-(m as int))
    ensures ParseIntString(ws + ("+" + u)) == Some(m)
  {
    assert TrimStart(u) == u;
    SignRead('-', u, m);
    SignRead('+', u, m);
    LeadingWhiteSpaceIgnored(ws, u);
    LeadingWhiteSpaceIgnored(ws, "-" + u);
    LeadingWhiteSpaceIgnored(ws, "+" + u);
  }

  /** A sign is read first and the rest parsed without it; '-' negates. */
  lemma SignRead(sign: char, u: string, m: nat)
    requires (sign == '-' || sign == '+') && ParseUnsigned(u) == Some(m)
    ensures ParseIntString([sign] + u) == Some(if sign == '-' then -(m as int) else m)
  {
    var v := [sign] + u;
    assert v[0] == sign && v[1..] == u && TrimStart(v) == v;
  }

  /** After a "0x" or "0X" prefix, a run of hexadecimal digits reads as its
      radix-16 value, and whatever follows the run is ignored. */
  lemma HexDigitsRead(ws: string, x: char, h: string, t: string)
    requires AllWhiteSpace(ws) && (x == 'x' || x == 'X')
    requires h != [] && forall i :: 0 <= i < |h| ==> IsRadixDigit(h[i], 16)
    requires t == [] || !IsRadixDigit(t[0], 16)
    ensures ParseIntString(ws + (['0', x] + (h + t))) == Some(DigitsValue(h, 16))
  {
    var u := ['0', x] + (h + t);
    HexPrefixRead(x, h + t);
    TrailingCharactersIgnored(h, t, 16);
    LeadingWhiteSpaceIgnored(ws, u);
  }

  /** A "0x" or "0X" prefix with no hexadecimal digit after it is NaN. */
  lemma HexPrefixWithoutDigits(ws: string, x: char, t: string)
    requires AllWhiteSpace(ws) && (x == 'x' || x == 'X')
    requires t == [] || !IsRadixDigit(t[0], 16)
    ensures ParseIntString(ws + (['0', x] + t)) == None
  {
    HexPrefixRead(x, t);
    LeadingWhiteSpaceIgnored(ws, ['0', x] + t);
  }

  /** After a "0x" or "0X" prefix the rest is read in radix 16. */
  lemma HexPrefixRead(x: char, v: string)
    requires x == 'x' || x == 'X'
    ensures ParseIntString(['0', x] + v) == ParseDigits(v, 16)
  {
    var u := ['0', x] + v;
    assert u[0] == '0' && u[1] == x && u[2..] == v;
    assert TrimStart(u) == u;
  }

  /** parseInt stops at a comma, so nothing after one changes the result:
      whatever `s` reads as, `s` followed by "," and anything else reads the same. */
  lemma CommaEndsTheNumber(s: string, t: string)
    requires t != [] && t[0] == ','
    ensures ParseIntString(s + t) == ParseIntString(s)
  {
    TrimStartAppend(s, t);
    ParseSignedAppend(TrimStart(s), t);
  }

  lemma {:induction false} TrimStartAppend(s: string, t: string)
    requires t != [] && !IsStrWhiteSpaceChar(t[0])
    ensures TrimStart(s + t) == TrimStart(s) + t
  {
    if s == [] {
      assert s + t == t;
    } else {
      assert (s + t)[0] == s[0];
      if IsStrWhiteSpaceChar(s[0]) {
        assert (s + t)[1..] == s[1..] + t;
        TrimStartAppend(s[1..], t);
      }
    }
  }

  lemma ParseSignedAppend(u: string, t: string)
    requires t != [] && t[0] == ','
    ensures ParseSigned(u + t) == ParseSigned(u)
  {
    if u != [] && (u[0] == '-' || u[0] == '+') {
      assert (u + t)[0] == u[0] && (u + t)[1..] == u[1..] + t;
      ParseUnsignedAppend(u[1..], t);
    } else {
      if u == [] {
        assert u + t == t;
      } else {
        assert (u + t)[0] == u[0];
      }
      ParseUnsignedAppend(u, t);
    }
  }

  lemma ParseUnsignedAppend(v: string, t: string)
    requires t != [] && t[0] == ','
    ensures ParseUnsigned(v + t) == ParseUnsigned(v)
  {
    if |v| >= 2 {
      assert (v + t)[0] == v[0] && (v + t)[1] == v[1];
    } else if |v| == 1 {
      assert (v + t)[1] == t[0];
    } else {
      assert v + t == t;
    }
    if HasHexPrefix(v) {
      assert (v + t)[2..] == v[2..] + t;
      ParseDigitsAppend(v[2..], t, 16);
    } else {
      ParseDigitsAppend(v, t, 10);
    }
  }

  lemma ParseDigitsAppend(w: string, t: string, radix: nat)
    requires t != [] && !IsRadixDigit(t[0], radix)
    ensures ParseDigits(w + t, radix) == ParseDigits(w, radix)
  {
    DigitPrefixAppend(w, t, radix);
    var k := DigitPrefixLength(w, radix);
    assert (w + t)[..k] == w[..k];
  }

  lemma {:induction false} DigitPrefixAppend(w: string, t: string, radix: nat)
    requires t != [] && !IsRadixDigit(t[0], radix)
    ensures DigitPrefixLength(w + t, radix) == DigitPrefixLength(w, radix)
  {
    if w == [] {
      assert w + t == t;
    } else {
      assert (w + t)[0] == w[0] && (w + t)[1..] == w[1..] + t;
      if IsRadixDigit(w[0], radix) {
        DigitPrefixAppend(w[1..], t, radix);
      }
    }
  }

  /** An array reads as its first element: the join puts a comma after it,
      where parseInt stops; an empty array, and an array whose first element
      is undefined or null, read as NaN. */
  lemma ArrayReadsFirstElement(elems: seq<JsValue>)
    ensures ParseInt(Array(elems)) == if elems == [] then None else ParseIntString(ElementString(elems[0]))
  {
    if elems == [] {
      ArrayToString(Undefined, []);
    } else {
      var e, rest := elems[0], elems[1..];
      assert elems == [e] + rest;
      ArrayToString(e, rest);
      if rest != [] {
        var t := "," + ToString(Array(rest));
        assert ElementString(e) + "," + ToString(Array(rest)) == ElementString(e) + t;
        CommaEndsTheNumber(ElementString(e), t);
      } else {
        assert elems == [e];
      }
    }
  }

  /** A query key given more than once (`?preBuffer=3&preBuffer=4`) reaches
      getInt as an array of strings, and getInt uses the first of them. */
  lemma RepeatedKeyReadsFirstValue(min: int, max: int, def: int, a: string, rest: seq<string>)
    ensures GetInt(min, max, def, Array([Str(a)] + StrValues(rest))) == GetInt(min, max, def, Str(a))
  {
    ArrayReadsFirstElement([Str(a)] + StrValues(rest));
  }

  /** The query-string values `vs` as JavaScript strings */
  function StrValues(vs: seq<string>): (r: seq<JsValue>)
    ensures |r| == |vs| && forall i :: 0 <= i < |vs| ==> r[i] == Str(vs[i])
  {
    if vs == [] then [] else [Str(vs[0])] + StrValues(vs[1..])
  }
}
