/** The JavaScript values that reach the node from its editor configuration,
    from HTTP query strings and from input messages, and the ToString
    conversion (ECMA-262, section 7.1.17) that `Number.parseInt` applies to them. */
module JsValues {

  /** A JavaScript value. Numbers are integral (see README); a plain object
      stands for every non-array object. An array is what a repeated query
      key (`?preBuffer=3&preBuffer=4`) or an array in an input message gives. */
  datatype JsValue =
    | Undefined
    | Null
    | Bool(b: bool)
    | Number(n: int)
    | Str(s: string)
    | Object
    | Array(elems: seq<JsValue>)

  /** Strictly below this magnitude Number::toString writes an integer in
      plain decimal notation; from it on, in exponent notation (ECMA-262,
      section 6.1.6.1.20). */
  const ExponentThreshold: int := 1_000_000_000_000_000_000_000

  predicate IsDecimalDigit(c: char) {
    '0' <= c <= '9'
  }

  function DigitChar(d: nat): (c: char)
    requires d < 10
    ensures IsDecimalDigit(c) && c as int - '0' as int == d
  {
    (d + '0' as int) as char
  }

  /** The decimal digits of `n`, most significant first, without leading zeros. */
  function Decimal(n: nat): (r: string)
    ensures |r| >= 1
    ensures forall i :: 0 <= i < |r| ==> IsDecimalDigit(r[i])
    ensures r[0] == '0' <==> n == 0
    ensures n < 10 <==> |r| == 1
  {
    if n < 10 then [DigitChar(n)] else Decimal(n / 10) + [DigitChar(n % 10)]
  }

  /** `s` without its trailing '0' characters */
  function StripTrailingZeros(s: string): (r: string)
    ensures |r| <= |s| && r == s[..|r|]
    ensures s != [] && s[0] != '0' ==> |r| >= 1
  {
    if s != [] && s[|s| - 1] == '0' then StripTrailingZeros(s[..|s| - 1]) else s
  }

  /** Number::toString for a non-negative integer (ECMA-262, section 6.1.6.1.20) */
  function NaturalToString(n: nat): string {
    if n < ExponentThreshold then Decimal(n)
    else
      var digits := StripTrailingZeros(Decimal(n));
      var exponent := Decimal(|Decimal(n)| - 1);
      [digits[0]] + (if |digits| > 1 then "." + digits[1..] else "") + "e+" + exponent
  }

  /** ToString (ECMA-262, section 7.1.17); an array goes through
      Array.prototype.join with "," (section 23.1.3.18). */
  function ToString(v: JsValue): string
    decreases v, 1
  {
    match v
    case Undefined => "undefined"
    case Null => "null"
    case Bool(b) => if b then "true" else "false"
    case Number(n) => if n < 0 then "-" + NaturalToString(-n) else NaturalToString(n)
    case Str(s) => s
    case Object => "[object Object]"
    case Array(_) => JoinElements(v, 0)
  }

  /** An element as Array.prototype.join writes it: undefined and null
      become the empty string. */
  function ElementString(e: JsValue): (r: string)
    ensures e.Undefined? || e.Null? ==> r == []
    decreases e, 2
  {
    if e.Undefined? || e.Null? then "" else ToString(e)
  }

  /** The elements of the array `v` from index `from` on, joined with "," */
  function JoinElements(v: JsValue, from: nat): string
    requires v.Array? && from <= |v.elems|
    decreases v, 0, |v.elems| - from
  {
    if from == |v.elems| then ""
    else if from + 1 == |v.elems| then ElementString(v.elems[from])
    else ElementString(v.elems[from]) + "," + JoinElements(v, from + 1)
  }

  /** The join of an array, read element by element: empty for no element,
      the element for one, and the first element, a comma and the join of
      the rest otherwise. */
  lemma ArrayToString(e: JsValue, rest: seq<JsValue>)
    ensures ToString(Array([])) == ""
    ensures ToString(Array([e])) == ElementString(e)
    ensures rest != [] ==> ToString(Array([e] + rest)) == ElementString(e) + "," + ToString(Array(rest))
  {
    if rest != [] {
      JoinShift(e, rest, 0);
    }
  }

  lemma {:induction false} JoinShift(e: JsValue, rest: seq<JsValue>, k: nat)
    requires k <= |rest|
    ensures JoinElements(Array([e] + rest), k + 1) == JoinElements(Array(rest), k)
    decreases |rest| - k
  {
    var v, w := Array([e] + rest), Array(rest);
    if k < |rest| {
      assert v.elems[k + 1] == w.elems[k];
      if k + 1 < |rest| {
        JoinShift(e, rest, k + 1);
      }
    }
  }
}
