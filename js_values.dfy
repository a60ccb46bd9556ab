/** JSON values as the handlers receive them, with JavaScript's truthiness
    and its `Number(...)` conversion. Numbers are integers here. */
module JsValues {
  import opened Common
  import opened Text

  datatype JsValue = Undefined | Null | Bool(b: bool) | Num(n: int) | Str(s: string)

  /** JavaScript truthiness: what `if (!x)` rejects. */
  predicate Truthy(v: JsValue) {
    match v
    case Undefined => false
    case Null => false
    case Bool(b) => b
    case Num(n) => n != 0
    case Str(s) => s != ""
  }

  predicate IsDigit(c: char) {
    '0' <= c <= '9'
  }

  predicate AllDigits(s: string) {
    forall i :: 0 <= i < |s| ==> IsDigit(s[i])
  }

  /** The value of a string of decimal digits. */
  function DigitsValue(s: string): (n: nat)
    requires AllDigits(s)
  {
    if s == [] then 0
    else DigitsValue(s[..|s| - 1]) * 10 + (s[|s| - 1] as int - '0' as int)
  }

  /** `Number(v)`, with NaN as `None`. Text converts when, trimmed, it is
      empty (0) or a run of decimal digits. */
  function ToNumber(v: JsValue): (r: Option<int>)
    ensures v.Num? ==> r == Some(v.n)
    ensures v.Null? ==> r == Some(0)
    ensures v.Undefined? ==> r.None?
    ensures v.Str? && Trim(v.s) == "" ==> r == Some(0)
    ensures v.Str? && r.Some? && Trim(v.s) != "" ==> AllDigits(Trim(v.s)) && r.value >= 0
  {
    match v
    case Undefined => None
    case Null => Some(0)
    case Bool(b) => Some(if b then 1 else 0)
    case Num(n) => Some(n)
    case Str(s) =>
      var t := Trim(s);
      if t == "" then Some(0)
      else if AllDigits(t) then Some(DigitsValue(t))
      else None
  }

  /** `Number(v) || 0`: NaN becomes 0. */
  function NumberOrZero(v: JsValue): int {
    match ToNumber(v)
    case None => 0
    case Some(n) => n
  }

  lemma {:induction false} NatToStringDigits(n: nat)
    ensures AllDigits(NatToString(n))
    ensures DigitsValue(NatToString(n)) == n
    decreases n
  {
    if n >= 10 {
      NatToStringDigits(n / 10);
      var s := NatToString(n);
      assert s[..|s| - 1] == NatToString(n / 10);
    }
  }

  /** `Number(String(n)) === n` for every non-negative integer. */
  lemma NumberOfText(n: nat)
    ensures ToNumber(Str(NatToString(n))) == Some(n)
    ensures NumberOrZero(Str(NatToString(n))) == n
  {
    NatToStringDigits(n);
    var s := NatToString(n);
    assert !IsJsWhitespace(s[0]) && !IsJsWhitespace(s[|s| - 1]);
    assert TrimStart(s) == s;
    assert Trim(s) == s;
  }
}
