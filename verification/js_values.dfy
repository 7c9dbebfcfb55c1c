/** The JavaScript values that cross the tensor layer's boundary, and the
    coercions the typed-array constructors apply to them.

    Numbers are modelled as mathematical integers: floating point (fractions,
    NaN, infinities) is not part of this model. */
module JsValues {

  /** Element kinds of the typed arrays the source uses. */
  datatype TypedKind = Int32 | Float64 | Uint8

  /** A JavaScript value as the tensor code inspects it with `typeof`,
      `Array.isArray` and `instanceof`. */
  datatype JsValue =
    | Num(n: int)
    | Str(s: string)
    | Bool(b: bool)
    | Typed(kind: TypedKind, data: seq<int>)
    | Arr(items: seq<JsValue>)
    | Null
    | Undefined
    | Obj(id: nat)                 // any other object, known by identity only

  /** Element data types named by strings in the source (`'i32'`, `'f64'`,
      `'bool'`, `'str'`); `Other` is any other string a caller may pass. */
  datatype DType = I32 | F64 | BoolType | StrType | Other(name: string)

  predicate IsNumber(v: JsValue) { v.Num? }
  predicate IsString(v: JsValue) { v.Str? }
  predicate IsBoolean(v: JsValue) { v.Bool? }
  predicate IsArray(v: JsValue) { v.Arr? }
  predicate IsTypedArray(v: JsValue) { v.Typed? }

  /** `typeof v === 'object'`: true of null, arrays and typed arrays too. */
  predicate IsObject(v: JsValue) { v.Null? || v.Obj? || v.Arr? || v.Typed? }

  /** An `Array` whose every item is a number. */
  predicate IsNumberArray(v: JsValue)
  {
    v.Arr? && forall i :: 0 <= i < |v.items| ==> v.items[i].Num?
  }

  /** The numbers held by a number array. */
  function Numbers(v: JsValue): (ns: seq<int>)
    requires IsNumberArray(v)
    ensures |ns| == |v.items|
    ensures forall i :: 0 <= i < |ns| ==> v.items[i] == Num(ns[i])
  {
    seq(|v.items|, i requires 0 <= i < |v.items| => v.items[i].n)
  }

  /** `v[0]` for an array or typed array; `undefined` when it is empty. */
  function FirstElement(v: JsValue): JsValue
    requires v.Arr? || v.Typed?
  {
    if v.Arr? then (if |v.items| == 0 then Undefined else v.items[0])
    else if |v.data| == 0 then Undefined else Num(v.data[0])
  }

  /** The number of elements of an array or typed array. */
  function Length(v: JsValue): nat
    requires v.Arr? || v.Typed?
  {
    if v.Arr? then |v.items| else |v.data|
  }

  /** `s.length` of a JavaScript string: its number of UTF-16 code units.
      A character of the Basic Multilingual Plane takes one unit, and one
      above U+FFFF takes two (a surrogate pair). */
  function Utf16Length(s: string): (n: nat)
    ensures |s| <= n <= 2 * |s|
    ensures n == |s| <==> forall i :: 0 <= i < |s| ==> s[i] as int <= 0xFFFF
    ensures n == 2 * |s| <==> forall i :: 0 <= i < |s| ==> s[i] as int > 0xFFFF
  {
    if |s| == 0 then 0
    else
      assert forall i :: 1 <= i < |s| ==> s[i] == s[1..][i - 1];
      (if s[0] as int <= 0xFFFF then 1 else 2) + Utf16Length(s[1..])
  }

  /** A character outside the Basic Multilingual Plane counts twice. */
  lemma AstralCharCountsTwice()
    ensures Utf16Length("\U{1F600}") == 2
    ensures Utf16Length("a\U{1F600}b") == 4
  {
  }

  const TWO_32: int := 0x1_0000_0000
  const TWO_31: int := 0x8000_0000

  /** ECMAScript ToInt32 on an integer: wrap modulo 2^32 into the signed
      32-bit range, as storing into an `Int32Array` does. */
  function ToInt32(x: int): (r: int)
    ensures -TWO_31 <= r < TWO_31
    ensures (r - x) % TWO_32 == 0
  {
    var m := x % TWO_32;
    if m < TWO_31 then m else m - TWO_32
  }

  lemma ToInt32InRange(x: int)
    requires -TWO_31 <= x < TWO_31
    ensures ToInt32(x) == x
  {
  }

  /** The integer stored by a typed array of `kind` for the integer `x`. */
  function Store(kind: TypedKind, x: int): (r: int)
    ensures kind == Int32 ==> -TWO_31 <= r < TWO_31 && (r - x) % TWO_32 == 0
    ensures kind == Float64 ==> r == x
    ensures kind == Uint8 ==> 0 <= r < 256 && (r - x) % 256 == 0
  {
    match kind
    case Int32 => ToInt32(x)
    case Float64 => x
    case Uint8 => x % 256
  }

  /** `new Int32Array(xs)` / `new Float64Array(xs)` / `new Uint8Array(xs)`
      applied to a sequence of integers. */
  function NewTypedArray(kind: TypedKind, xs: seq<int>): (v: JsValue)
    ensures v.Typed? && v.kind == kind && |v.data| == |xs|
    ensures forall i :: 0 <= i < |xs| ==> v.data[i] == Store(kind, xs[i])
  {
    Typed(kind, seq(|xs|, i requires 0 <= i < |xs| => Store(kind, xs[i])))
  }
}
