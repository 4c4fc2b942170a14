/** The typed column values of TytoDB (`AlbaTypes`), the lexer's tokens, and the conversions
    between them: type codes, on-disk sizes, coercion of a value to a column's type, and the
    reading of a literal token as a value. */
module AlbaTypes {
  import opened Primitives
  import opened Errors
  import opened Strings

  /** A 64-bit float, kept as its bit pattern; arithmetic on it belongs to FloatOps. */
  datatype F64 = F64(bits: u64)

  const ZERO_F64: F64 := F64(0)

  datatype AlbaType =
    | Text(text: string)
    | Int(int32: i32)
    | Bigint(int64: i64)
    | Float(float: F64)
    | Bool(flag: bool)
    | Char(ch: char)
    | NanoString(text: string)
    | SmallString(text: string)
    | MediumString(text: string)
    | BigString(text: string)
    | LargeString(text: string)
    | NanoBytes(bytes: seq<byte>)
    | SmallBytes(bytes: seq<byte>)
    | MediumBytes(bytes: seq<byte>)
    | BigSBytes(bytes: seq<byte>)
    | LargeBytes(bytes: seq<byte>)
    | NONE

  datatype Token =
    | Keyword(word: string)
    | String(text: string)
    | Bytes(bytes: seq<byte>)
    | Int(value: i64)
    | Float(float: F64)
    | Bool(flag: bool)
    | Operator(op: string)
    | Group(items: seq<Token>)
    | SubCommand(items: seq<Token>)
    | Argument

  /** The float operations of the standard library the conversions call. */
  datatype FloatOps = FloatOps(
    toText: F64 -> string,           // f64::to_string
    parse: string -> Option<F64>,    // str::parse::<f64>
    fromInt: int -> F64,             // `n as f64`
    isFinite: F64 -> bool,           // neither NaN nor infinite
    toI32: F64 -> i32,               // `f as i32`, saturating
    toI64: F64 -> i64,               // `f as i64`, saturating
    isZero: F64 -> bool,             // `f == 0.0`
    eq: (F64, F64) -> bool)          // `a == b` on f64: false for NaN, true for 0.0 and -0.0

  /** The standard base64 engine. */
  datatype Base64 = Base64(encode: seq<byte> -> string, decode: string -> Option<seq<byte>>)

  const I32_MIN: int := -0x8000_0000
  const I32_MAX: int := 0x7FFF_FFFF
  const I64_MIN: int := -0x8000_0000_0000_0000
  const I64_MAX: int := 0x7FFF_FFFF_FFFF_FFFF

  /** `size_of::<usize>()`: the length prefix stored before a fixed-width payload. */
  const USIZE_BYTES: nat := 8

  predicate IsStringKind(v: AlbaType) {
    v.Text? || v.NanoString? || v.SmallString? || v.MediumString? || v.BigString? || v.LargeString?
  }

  predicate IsBytesKind(v: AlbaType) {
    v.NanoBytes? || v.SmallBytes? || v.MediumBytes? || v.BigSBytes? || v.LargeBytes?
  }

  /** The type code written in a container header. */
  function GetId(v: AlbaType): (id: byte)
    ensures id <= 16
    ensures id == 0 <==> v.NONE?
  {
    match v
    case NONE => 0
    case Char(_) => 1
    case Int(_) => 2
    case Bigint(_) => 3
    case Bool(_) => 4
    case Float(_) => 5
    case Text(_) => 6
    case NanoString(_) => 7
    case SmallString(_) => 8
    case MediumString(_) => 9
    case BigString(_) => 10
    case LargeString(_) => 11
    case NanoBytes(_) => 12
    case SmallBytes(_) => 13
    case MediumBytes(_) => 14
    case BigSBytes(_) => 15
    case LargeBytes(_) => 16
  }

  /** The derived `PartialEq` of AlbaTypes: the same variant with equal payloads, where a Float
      payload is compared with f64 `==` rather than by its bits. */
  predicate ValueEq(fl: FloatOps, a: AlbaType, b: AlbaType) {
    if a.Float? && b.Float? then fl.eq(a.float, b.float) else a == b
  }

  /** `==` on `Vec<AlbaTypes>`: the same length and equal values position by position. */
  predicate ValuesEq(fl: FloatOps, xs: seq<AlbaType>, ys: seq<AlbaType>) {
    |xs| == |ys| && forall k :: 0 <= k < |xs| ==> ValueEq(fl, xs[k], ys[k])
  }

  /** Without a Float among them, vectors of values are equal exactly when they are identical. */
  lemma ValuesEqWithoutFloats(fl: FloatOps, xs: seq<AlbaType>, ys: seq<AlbaType>)
    requires forall k :: 0 <= k < |xs| ==> !xs[k].Float?
    ensures ValuesEq(fl, xs, ys) <==> xs == ys
  {
    if ValuesEq(fl, xs, ys) {
      forall k | 0 <= k < |xs| ensures xs[k] == ys[k] {
        assert ValueEq(fl, xs[k], ys[k]);
      }
    }
  }

  /** A Float column type whose payload is NaN (not equal to itself) makes a vector unequal to
      itself, and two Float payloads f64 calls equal (0.0 and -0.0) make different vectors equal. */
  lemma FloatColumnEquality(fl: FloatOps, x: F64, y: F64)
    ensures !fl.eq(x, x) ==> !ValuesEq(fl, [AlbaType.Float(x)], [AlbaType.Float(x)])
    ensures fl.eq(x, y) ==> ValuesEq(fl, [AlbaType.Float(x)], [AlbaType.Float(y)])
  {
    assert [AlbaType.Float(x)][0] == AlbaType.Float(x) && [AlbaType.Float(y)][0] == AlbaType.Float(y);
  }

  /** Two values of the same type (Rust's `mem::discriminant` equality). */
  predicate SameType(a: AlbaType, b: AlbaType) {
    GetId(a) == GetId(b)
  }

  /** The default value of the type with the given code; unknown codes are an InvalidData error. */
  function FromId(code: byte): (r: Result<AlbaType>)
    ensures r.Ok? <==> code <= 16
    ensures r.Ok? ==> GetId(r.value) == code
    ensures r.Err? ==> r.error.kind == InvalidData
  {
    match code
    case 0 => Ok(NONE)
    case 1 => Ok(Char(0 as char))
    case 2 => Ok(AlbaType.Int(0))
    case 3 => Ok(Bigint(0))
    case 4 => Ok(AlbaType.Bool(false))
    case 5 => Ok(AlbaType.Float(ZERO_F64))
    case 6 => Ok(Text(""))
    case 7 => Ok(NanoString(""))
    case 8 => Ok(SmallString(""))
    case 9 => Ok(MediumString(""))
    case 10 => Ok(BigString(""))
    case 11 => Ok(LargeString(""))
    case 12 => Ok(NanoBytes([]))
    case 13 => Ok(SmallBytes([]))
    case 14 => Ok(MediumBytes([]))
    case 15 => Ok(BigSBytes([]))
    case 16 => Ok(LargeBytes([]))
    case _ => Err(Error(InvalidData, "Unknown AlbaTypes code: " + IntToString(code)))
  }

  /** The code of a value decodes to a value of the same type. */
  lemma FromIdOfGetId(v: AlbaType)
    ensures FromId(GetId(v)).Ok? && SameType(FromId(GetId(v)).value, v)
  {
  }

  /** Payload width of the fixed-width string types. */
  function StringWidth(v: AlbaType): (w: nat)
    requires IsStringKind(v) && !v.Text?
    ensures 10 <= w <= 3000
  {
    match v
    case NanoString(_) => 10
    case SmallString(_) => 100
    case MediumString(_) => 500
    case BigString(_) => 2000
    case LargeString(_) => 3000
  }

  /** Payload width of the fixed-width byte types. */
  function BytesWidth(v: AlbaType): (w: nat)
    requires IsBytesKind(v)
    ensures 10 <= w <= 1_000_000
  {
    match v
    case NanoBytes(_) => 10
    case SmallBytes(_) => 1000
    case MediumBytes(_) => 10_000
    case BigSBytes(_) => 100_000
    case LargeBytes(_) => 1_000_000
  }

  /** Bytes a value of this type occupies in a row; a Text column takes maxStrLen. */
  function Size(v: AlbaType, maxStrLen: nat): (n: nat)
    ensures v.NONE? ==> n == 0
    ensures !v.NONE? && !v.Text? ==> n > 0
    ensures IsStringKind(v) && !v.Text? ==> n == StringWidth(v) + USIZE_BYTES
    ensures IsBytesKind(v) ==> n == BytesWidth(v) + USIZE_BYTES
  {
    match v
    case Bigint(_) => 8
    case Int(_) => 4
    case Float(_) => 8
    case Bool(_) => 1
    case Text(_) => maxStrLen
    case NONE => 0
    case Char(_) => 4
    case NanoString(_) => 10 + USIZE_BYTES
    case SmallString(_) => 100 + USIZE_BYTES
    case MediumString(_) => 500 + USIZE_BYTES
    case BigString(_) => 2000 + USIZE_BYTES
    case LargeString(_) => 3000 + USIZE_BYTES
    case NanoBytes(_) => 10 + USIZE_BYTES
    case SmallBytes(_) => 1000 + USIZE_BYTES
    case MediumBytes(_) => 10_000 + USIZE_BYTES
    case BigSBytes(_) => 100_000 + USIZE_BYTES
    case LargeBytes(_) => 1_000_000 + USIZE_BYTES
  }

  /** Size depends on the type only, never on the value held. */
  lemma SizeDependsOnTypeOnly(a: AlbaType, b: AlbaType, maxStrLen: nat)
    requires SameType(a, b)
    ensures Size(a, maxStrLen) == Size(b, maxStrLen)
  {
  }

  function Spaces(n: nat): (r: string)
    ensures |r| == n && forall k :: 0 <= k < n ==> r[k] == ' '
  {
    seq(n, _ => ' ')
  }

  /** `truncate_or_pad_string`. Text longer than maxLen UTF-8 bytes is cut to its first maxLen
      bytes, and None stands for the panic of that slice when it falls inside a character.
      Shorter text is padded with spaces up to maxLen characters, which is what the `format!`
      width counts. */
  function TruncateOrPadString(s: string, maxLen: nat): (r: Option<string>)
    ensures Utf8Len(s) <= maxLen ==>
      r.Some? && |r.value| == maxLen && r.value[..|s|] == s && r.value[|s|..] == Spaces(maxLen - |s|)
    ensures Utf8Len(s) > maxLen && r.Some? ==>
      |r.value| <= |s| && r.value == s[..|r.value|] && Utf8Len(r.value) == maxLen
    ensures Utf8Len(s) > maxLen ==> (r.None? <==> forall k :: 0 <= k <= |s| ==> Utf8Len(s[..k]) != maxLen)
  {
    if Utf8Len(s) > maxLen then
      if ByteCut(s, maxLen).None? then ByteCutMisses(s, maxLen); None else ByteCut(s, maxLen)
    else Some(s + Spaces(maxLen - |s|))
  }

  /** A fitted string has at most maxLen characters and at least maxLen bytes; it has exactly maxLen
      of both when it is ASCII. Padding counts characters, so padded non-ASCII text takes more than
      maxLen bytes. */
  lemma FittedLength(s: string, maxLen: nat)
    requires TruncateOrPadString(s, maxLen).Some?
    ensures var t := TruncateOrPadString(s, maxLen).value;
      && |t| <= maxLen <= Utf8Len(t)
      && (IsAscii(t) <==> |t| == maxLen == Utf8Len(t))
      && (Utf8Len(s) <= maxLen ==> Utf8Len(t) == Utf8Len(s) + (maxLen - |s|))
  {
    var t := TruncateOrPadString(s, maxLen).value;
    if Utf8Len(s) <= maxLen {
      assert t == s + Spaces(maxLen - |s|);
      Utf8LenConcat(s, Spaces(maxLen - |s|));
      Utf8LenSpaces(Spaces(maxLen - |s|));
    }
    Utf8LenAscii(t);
  }

  /** Fitting a fitted string to the same width again leaves it unchanged exactly when it is ASCII:
      padded non-ASCII text is over maxLen bytes and gets cut, and cut non-ASCII text is under
      maxLen characters and gets padded. */
  lemma TruncateOrPadStringIdempotent(s: string, maxLen: nat)
    requires TruncateOrPadString(s, maxLen).Some?
    ensures var t := TruncateOrPadString(s, maxLen).value;
      TruncateOrPadString(t, maxLen) == Some(t) <==> IsAscii(t)
  {
    var t := TruncateOrPadString(s, maxLen).value;
    FittedLength(s, maxLen);
    if IsAscii(t) {
      assert Utf8Len(t) == |t| == maxLen;
      var r := TruncateOrPadString(t, maxLen).value;
      assert |r| == |t| && r[..|t|] == t;
      assert r == r[..|t|];
    } else if Utf8Len(t) > maxLen {
      assert TruncateOrPadString(t, maxLen) != Some(t);
    } else {
      assert |t| < maxLen;
      assert |TruncateOrPadString(t, maxLen).value| == maxLen;
    }
  }

  /** Cut b to maxLen bytes, or extend it with zero bytes to maxLen. */
  function TruncateOrPadBytes(b: seq<byte>, maxLen: nat): (r: seq<byte>)
    ensures |r| == maxLen
    ensures |b| >= maxLen ==> r == b[..maxLen]
    ensures |b| <= maxLen ==> r[..|b|] == b && r[|b|..] == Zeros(maxLen - |b|)
  {
    if |b| > maxLen then b[..maxLen] else b + Zeros(maxLen - |b|)
  }

  /** Fitting bytes to a width twice is fitting them once. */
  lemma TruncateOrPadBytesIdempotent(b: seq<byte>, maxLen: nat)
    ensures TruncateOrPadBytes(TruncateOrPadBytes(b, maxLen), maxLen) == TruncateOrPadBytes(b, maxLen)
  {
  }

  /** `bool::to_string` */
  function BoolText(b: bool): string {
    if b then "true" else "false"
  }

  /** `get_string_from_alba_type`: the text form of any value but NONE. */
  function StringOf(i: AlbaType, fl: FloatOps, b64: Base64): (r: Result<string>)
    ensures r.Err? <==> i.NONE?
    ensures IsStringKind(i) ==> r == Ok(i.text)
  {
    match i
    case Text(s) => Ok(s)
    case NanoString(s) => Ok(s)
    case SmallString(s) => Ok(s)
    case MediumString(s) => Ok(s)
    case BigString(s) => Ok(s)
    case LargeString(s) => Ok(s)
    case Int(n) => Ok(IntToString(n))
    case Bigint(n) => Ok(IntToString(n))
    case Float(f) => Ok(fl.toText(f))
    case Bool(b) => Ok(BoolText(b))
    case Char(c) => Ok([c])
    case NanoBytes(b) => Ok(b64.encode(b))
    case SmallBytes(b) => Ok(b64.encode(b))
    case MediumBytes(b) => Ok(b64.encode(b))
    case BigSBytes(b) => Ok(b64.encode(b))
    case LargeBytes(b) => Ok(b64.encode(b))
    case NONE => Err(Error(InvalidData, "Cannot convert NONE to string"))
  }

  /** `get_bytes_from_alba_type`: raw bytes, or the base64 decoding of a string. */
  function BytesOf(i: AlbaType, b64: Base64): (r: Result<seq<byte>>)
    ensures IsBytesKind(i) ==> r == Ok(i.bytes)
    ensures r.Ok? ==> IsBytesKind(i) || IsStringKind(i)
  {
    if IsBytesKind(i) then Ok(i.bytes)
    else if IsStringKind(i) then
      match b64.decode(i.text)
      case Some(b) => Ok(b)
      case None => Err(Error(InvalidData, "Invalid base64 string"))
    else if i.NONE? then Err(Error(InvalidData, "Cannot convert NONE to bytes"))
    else Err(Error(InvalidData, "Unsupported conversion to bytes"))
  }

  /** The boolean a string denotes, after trimming and lower-casing: false for "0", "f" and
      "false", true for "1", "t" and "true", in any ASCII case and with any surrounding whitespace;
      nothing for other text, blank text included. */
  function ParseBool(s: string): (r: Option<bool>)
    ensures r == Some(false) <==> Lower(Trim(s)) in {"0", "f", "false"}
    ensures r == Some(true) <==> Lower(Trim(s)) in {"1", "t", "true"}
    ensures r.Some? ==> Trim(s) != []
  {
    var t := Lower(Trim(s));
    if t == "0" || t == "f" || t == "false" then Some(false)
    else if t == "1" || t == "t" || t == "true" then Some(true)
    else None
  }

  function ToText(i: AlbaType, fl: FloatOps, b64: Base64): (r: Result<AlbaType>)
    ensures r.Ok? <==> !i.NONE?
    ensures r.Ok? ==> r.value.Text?
    ensures r.Err? ==> r.error.kind == InvalidData
  {
    if i.NONE? then Err(Error(InvalidData, "Cannot convert NONE to Text"))
    else Ok(Text(StringOf(i, fl, b64).value))
  }

  function ToInt(i: AlbaType, fl: FloatOps): (r: Result<AlbaType>)
    ensures r.Ok? ==> r.value.Int?
    ensures r.Err? ==> r.error.kind == InvalidData
    ensures i.NONE? ==> r.Err?
  {
    if IsStringKind(i) then
      match ParseInt(i.text, I32_MIN, I32_MAX)
      case Some(n) => Ok(AlbaType.Int(n))
      case None => Err(Error(InvalidData, "Failed to parse string as i32"))
    else match i
    case Int(n) => Ok(AlbaType.Int(n))
    case Bigint(n) =>
      if I32_MIN <= n <= I32_MAX then Ok(AlbaType.Int(n))
      else Err(Error(InvalidData, "Bigint out of range for i32"))
    case Float(f) =>
      if !fl.isFinite(f) then Err(Error(InvalidData, "Cannot convert NaN or infinite float to i32"))
      else Ok(AlbaType.Int(fl.toI32(f)))
    case Bool(b) => Ok(AlbaType.Int(if b then 1 else 0))
    case NONE => Err(Error(InvalidData, "Cannot convert NONE to Int"))
    case _ => Err(Error(InvalidData, "Unsupported conversion to Int"))
  }

  function ToBigint(i: AlbaType, fl: FloatOps): (r: Result<AlbaType>)
    ensures r.Ok? ==> r.value.Bigint?
    ensures r.Err? ==> r.error.kind == InvalidData
    ensures i.NONE? ==> r.Err?
  {
    if IsStringKind(i) then
      match ParseInt(i.text, I64_MIN, I64_MAX)
      case Some(n) => Ok(Bigint(n))
      case None => Err(Error(InvalidData, "Failed to parse string as i64"))
    else match i
    case Bigint(n) => Ok(Bigint(n))
    case Int(n) => Ok(Bigint(n))
    case Float(f) =>
      if !fl.isFinite(f) then Err(Error(InvalidData, "Cannot convert NaN or infinite float to i64"))
      else Ok(Bigint(fl.toI64(f)))
    case Bool(b) => Ok(Bigint(if b then 1 else 0))
    case NONE => Err(Error(InvalidData, "Cannot convert NONE to Bigint"))
    case _ => Err(Error(InvalidData, "Unsupported conversion to Bigint"))
  }

  function ToFloat(i: AlbaType, fl: FloatOps): (r: Result<AlbaType>)
    ensures r.Ok? ==> r.value.Float?
    ensures r.Err? ==> r.error.kind == InvalidData
    ensures i.NONE? ==> r.Err?
  {
    if IsStringKind(i) then
      match fl.parse(i.text)
      case Some(f) => Ok(AlbaType.Float(f))
      case None => Err(Error(InvalidData, "Failed to parse string as f64"))
    else match i
    case Float(f) => Ok(AlbaType.Float(f))
    case Int(n) => Ok(AlbaType.Float(fl.fromInt(n)))
    case Bigint(n) => Ok(AlbaType.Float(fl.fromInt(n)))
    case Bool(b) => Ok(AlbaType.Float(fl.fromInt(if b then 1 else 0)))
    case NONE => Err(Error(InvalidData, "Cannot convert NONE to Float"))
    case _ => Err(Error(InvalidData, "Unsupported conversion to Float"))
  }

  function ToBool(i: AlbaType, fl: FloatOps): (r: Result<AlbaType>)
    ensures r.Ok? ==> r.value.Bool?
    ensures r.Err? ==> r.error.kind == InvalidData
    ensures i.NONE? ==> r.Err?
  {
    if IsStringKind(i) then
      match ParseBool(i.text)
      case Some(b) => Ok(AlbaType.Bool(b))
      case None => Err(Error(InvalidData, "Invalid boolean string"))
    else match i
    case Bool(b) => Ok(AlbaType.Bool(b))
    case Int(n) => Ok(AlbaType.Bool(n != 0))
    case Bigint(n) => Ok(AlbaType.Bool(n != 0))
    case Float(f) => Ok(AlbaType.Bool(!fl.isZero(f)))
    case NONE => Err(Error(InvalidData, "Cannot convert NONE to Bool"))
    case _ => Err(Error(InvalidData, "Unsupported conversion to Bool"))
  }

  function ToChar(i: AlbaType): (r: Result<AlbaType>)
    ensures r.Ok? ==> r.value.Char?
    ensures r.Err? ==> r.error.kind == InvalidData
    ensures i.NONE? ==> r.Err?
  {
    if IsStringKind(i) then
      // the test is on the UTF-8 length, so only a single ASCII character passes
      if Utf8Len(i.text) == 1 then (Utf8LenOne(i.text); Ok(Char(i.text[0])))
      else Err(Error(InvalidData, "String must be a single character for Char"))
    else match i
    case Char(c) => Ok(Char(c))
    case NONE => Err(Error(InvalidData, "Cannot convert NONE to Char"))
    case _ => Err(Error(InvalidData, "Unsupported conversion to Char"))
  }

  /** `try_from_existing`: the value i coerced to the type of target. */
  function TryFromExisting(target: AlbaType, i: AlbaType, fl: FloatOps, b64: Base64): (r: Result<AlbaType>)
    ensures r.Ok? ==> SameType(r.value, target)
    ensures r.Err? ==> r.error.kind == InvalidData || r.error == CHAR_BOUNDARY_PANIC
    ensures r.Err? && r.error.kind == Panicked ==> IsStringKind(target) && !target.Text?
    ensures target.NONE? ==> r == Ok(NONE)
    ensures i.NONE? ==> (r.Ok? <==> target.NONE?)
    ensures r.Ok? && IsStringKind(target) && !target.Text? ==>
      |r.value.text| <= StringWidth(target) <= Utf8Len(r.value.text)
    ensures r.Ok? && IsBytesKind(target) ==> |r.value.bytes| == BytesWidth(target)
  {
    if IsStringKind(target) && !target.Text? then ToFixedString(target, i, fl, b64)
    else if IsBytesKind(target) then ToFixedBytes(target, i, b64)
    else
      match target
      case Text(_) => ToText(i, fl, b64)
      case Int(_) => ToInt(i, fl)
      case Bigint(_) => ToBigint(i, fl)
      case Float(_) => ToFloat(i, fl)
      case Bool(_) => ToBool(i, fl)
      case Char(_) => ToChar(i)
      case NONE => Ok(NONE)
  }

  /** What the source's `&s[..max_len]` panics with when max_len is inside a character. */
  const CHAR_BOUNDARY_PANIC: Error := Error(Panicked, "byte index is not a char boundary")

  /** The text of i cut or space-padded to the width of the fixed-width string type target. */
  function ToFixedString(target: AlbaType, i: AlbaType, fl: FloatOps, b64: Base64): (r: Result<AlbaType>)
    requires IsStringKind(target) && !target.Text?
    ensures i.NONE? ==> r.Err? && r.error.kind == InvalidData
    ensures !i.NONE? ==> (r.Err? <==> TruncateOrPadString(StringOf(i, fl, b64).value, StringWidth(target)).None?)
    ensures !i.NONE? && r.Err? ==> r.error == CHAR_BOUNDARY_PANIC
    ensures r.Ok? ==> SameType(r.value, target) && |r.value.text| <= StringWidth(target) <= Utf8Len(r.value.text)
    ensures r.Ok? ==> (IsAscii(r.value.text) <==> |r.value.text| == StringWidth(target) == Utf8Len(r.value.text))
  {
    var s :- StringOf(i, fl, b64);
    FitText(target, s)
  }

  /** The text s cut or space-padded to the width of target, or the slice panic. */
  function FitText(target: AlbaType, s: string): (r: Result<AlbaType>)
    requires IsStringKind(target) && !target.Text?
    ensures r.Err? <==> TruncateOrPadString(s, StringWidth(target)).None?
    ensures r.Err? ==> r.error == CHAR_BOUNDARY_PANIC
    ensures r.Ok? ==> SameType(r.value, target) && |r.value.text| <= StringWidth(target) <= Utf8Len(r.value.text)
    ensures r.Ok? ==> (IsAscii(r.value.text) <==> |r.value.text| == StringWidth(target) == Utf8Len(r.value.text))
  {
    var w := StringWidth(target);
    var fitted := TruncateOrPadString(s, w);
    if fitted.None? then Err(CHAR_BOUNDARY_PANIC)
    else
      FittedLength(s, w);
      TextUpdateKeepsType(target, fitted.value);
      Ok(target.(text := fitted.value))
  }

  /** Replacing the text of a string value keeps its type and width. */
  lemma TextUpdateKeepsType(v: AlbaType, t: string)
    requires IsStringKind(v) && !v.Text?
    ensures var w := v.(text := t); w.text == t && SameType(w, v) && IsStringKind(w) && !w.Text?
    ensures StringWidth(v.(text := t)) == StringWidth(v)
  {
  }

  /** The bytes of i cut or zero-padded to the width of the bytes type target. */
  function ToFixedBytes(target: AlbaType, i: AlbaType, b64: Base64): (r: Result<AlbaType>)
    requires IsBytesKind(target)
    ensures r.Ok? ==> SameType(r.value, target) && |r.value.bytes| == BytesWidth(target)
    ensures r.Err? ==> r.error.kind == InvalidData
    ensures i.NONE? ==> r.Err?
  {
    var b :- BytesOf(i, b64);
    Ok(target.(bytes := TruncateOrPadBytes(b, BytesWidth(target))))
  }

  /** A coerced value has its column's size. Fixed bytes fill the column exactly. Fixed text takes
      at least the column's bytes, and exactly that when it is ASCII. */
  lemma CoercedValueFillsColumn(target: AlbaType, i: AlbaType, fl: FloatOps, b64: Base64, maxStrLen: nat)
    requires TryFromExisting(target, i, fl, b64).Ok?
    ensures var v := TryFromExisting(target, i, fl, b64).value;
      && Size(v, maxStrLen) == Size(target, maxStrLen)
      && (IsStringKind(target) && !target.Text? ==> Size(target, maxStrLen) <= Utf8Len(v.text) + USIZE_BYTES)
      && (IsStringKind(target) && !target.Text? && IsAscii(v.text) ==>
            Utf8Len(v.text) + USIZE_BYTES == Size(target, maxStrLen))
      && (IsBytesKind(target) ==> |v.bytes| + USIZE_BYTES == Size(target, maxStrLen))
  {
    var v := TryFromExisting(target, i, fl, b64).value;
    SizeDependsOnTypeOnly(v, target, maxStrLen);
    if IsStringKind(target) && !target.Text? {
      assert v == ToFixedString(target, i, fl, b64).value;
    }
  }

  /** "é" coerced to a NanoString is "é" and nine spaces: eleven bytes in a ten-byte column.
      Coercing that value to a NanoString again cuts a space off. */
  lemma PaddedAccentOverflows(fl: FloatOps, b64: Base64)
    ensures TryFromExisting(NanoString(""), Text([0xE9 as char]), fl, b64) == Ok(NanoString([0xE9 as char] + Spaces(9)))
    ensures Utf8Len([0xE9 as char] + Spaces(9)) == 11
    ensures TryFromExisting(NanoString(""), NanoString([0xE9 as char] + Spaces(9)), fl, b64)
      == Ok(NanoString([0xE9 as char] + Spaces(8)))
  {
    var e := [0xE9 as char];
    assert StringWidth(NanoString("")) == 10;
    AccentPadded();
    AccentPaddedCut();
    assert StringOf(Text(e), fl, b64) == Ok(e);
    assert StringOf(NanoString(e + Spaces(9)), fl, b64) == Ok(e + Spaces(9));
  }

  lemma AccentPadded()
    ensures TruncateOrPadString([0xE9 as char], 10) == Some([0xE9 as char] + Spaces(9))
    ensures Utf8Len([0xE9 as char] + Spaces(9)) == 11
  {
    var e := [0xE9 as char];
    assert Utf8Len(e) == 2;
    var r := TruncateOrPadString(e, 10).value;
    assert r == r[..1] + r[1..];
    Utf8LenConcat(e, Spaces(9));
    Utf8LenSpaces(Spaces(9));
  }

  lemma AccentPaddedCut()
    ensures TruncateOrPadString([0xE9 as char] + Spaces(9), 10) == Some([0xE9 as char] + Spaces(8))
  {
    var e := [0xE9 as char];
    var s := e + Spaces(9);
    Utf8LenConcat(e, Spaces(9));
    Utf8LenSpaces(Spaces(9));
    assert Utf8Len(s) == 11;
    assert s[..9] == e + Spaces(8);
    Utf8LenConcat(e, Spaces(8));
    Utf8LenSpaces(Spaces(8));
    ByteCutPrefix(s, 9, 10);
  }

  /** "a" followed by five "é" is eleven bytes; the cut to a NanoString's ten bytes falls inside
      the last "é", so the coercion panics. */
  lemma AccentCutPanics(fl: FloatOps, b64: Base64)
    ensures TryFromExisting(NanoString(""), Text("a" + seq(5, _ => 0xE9 as char)), fl, b64) == Err(CHAR_BOUNDARY_PANIC)
  {
    var s := "a" + seq(5, _ => 0xE9 as char);
    assert Utf8Len(s) == 11 by {
      assert s[1..] == seq(5, _ => 0xE9 as char);
      AccentsLen(5);
    }
    forall k | 0 <= k <= |s|
      ensures Utf8Len(s[..k]) != 10
    {
      if k > 0 {
        assert s[..k] == "a" + seq(k - 1, _ => 0xE9 as char);
        assert ("a" + seq(k - 1, _ => 0xE9 as char))[1..] == seq(k - 1, _ => 0xE9 as char);
        AccentsLen(k - 1);
      } else {
        assert s[..k] == [];
      }
    }
  }

  /** Each "é" is two bytes. */
  lemma {:induction false} AccentsLen(n: nat)
    ensures Utf8Len(seq(n, _ => 0xE9 as char)) == 2 * n
  {
    if n > 0 {
      assert seq(n, _ => 0xE9 as char)[1..] == seq(n - 1, _ => 0xE9 as char);
      AccentsLen(n - 1);
    }
  }

  /** Cutting at the byte length of a prefix gives that prefix. */
  lemma {:induction false} ByteCutPrefix(s: string, k: nat, n: nat)
    requires k <= |s| && Utf8Len(s[..k]) == n
    ensures ByteCut(s, n) == Some(s[..k])
    decreases |s|
  {
    if k == 0 {
      assert s[..k] == [];
    } else {
      assert s[..k][0] == s[0] && s[..k][1..] == s[1..][..k - 1];
      ByteCutPrefix(s[1..], k - 1, n - Utf8Width(s[0]));
      assert [s[0]] + s[1..][..k - 1] == s[..k];
    }
  }

  /** Coercing a value to its own type a second time changes nothing, except fixed-width text that
      is not ASCII, which changes. */
  lemma CoercionIdempotent(target: AlbaType, i: AlbaType, fl: FloatOps, b64: Base64)
    requires TryFromExisting(target, i, fl, b64).Ok?
    ensures var v := TryFromExisting(target, i, fl, b64).value;
      TryFromExisting(target, v, fl, b64) == Ok(v) <==> !(IsStringKind(target) && !target.Text?) || IsAscii(v.text)
  {
    var v := TryFromExisting(target, i, fl, b64).value;
    if IsStringKind(target) && !target.Text? {
      assert v == ToFixedString(target, i, fl, b64).value;
      FixedStringIdempotent(target, i, fl, b64);
      assert TryFromExisting(target, v, fl, b64) == ToFixedString(target, v, fl, b64);
    } else if IsBytesKind(target) {
      assert v == ToFixedBytes(target, i, b64).value;
      FixedBytesIdempotent(target, i, b64);
      assert TryFromExisting(target, v, fl, b64) == ToFixedBytes(target, v, b64);
    }
  }

  /** A fixed string coerced again to the same width is unchanged exactly when it is ASCII. */
  lemma FixedStringIdempotent(target: AlbaType, i: AlbaType, fl: FloatOps, b64: Base64)
    requires IsStringKind(target) && !target.Text? && ToFixedString(target, i, fl, b64).Ok?
    ensures var v := ToFixedString(target, i, fl, b64).value;
      ToFixedString(target, v, fl, b64) == Ok(v) <==> IsAscii(v.text)
  {
    var v := ToFixedString(target, i, fl, b64).value;
    var s := StringOf(i, fl, b64).value;
    assert TruncateOrPadString(s, StringWidth(target)) == Some(v.text);
    TruncateOrPadStringIdempotent(s, StringWidth(target));
    assert StringOf(v, fl, b64) == Ok(v.text);
    assert v == target.(text := v.text);
  }

  lemma FixedBytesIdempotent(target: AlbaType, i: AlbaType, b64: Base64)
    requires IsBytesKind(target) && ToFixedBytes(target, i, b64).Ok?
    ensures var v := ToFixedBytes(target, i, b64).value;
      ToFixedBytes(target, v, b64) == Ok(v)
  {
    var v := ToFixedBytes(target, i, b64).value;
    TruncateOrPadBytesIdempotent(BytesOf(i, b64).value, BytesWidth(target));
    assert BytesOf(v, b64) == Ok(v.bytes);
  }

  /** An Int written as Text reads back as the same Int; likewise a Bigint. */
  lemma IntegerTextRoundTrip(n: i32, m: i64, fl: FloatOps, b64: Base64)
    ensures TryFromExisting(Text(""), AlbaType.Int(n), fl, b64) == Ok(Text(IntToString(n)))
    ensures TryFromExisting(AlbaType.Int(0), Text(IntToString(n)), fl, b64) == Ok(AlbaType.Int(n))
    ensures TryFromExisting(Bigint(0), Text(IntToString(m)), fl, b64) == Ok(Bigint(m))
  {
    assert TryFromExisting(Text(""), AlbaType.Int(n), fl, b64) == ToText(AlbaType.Int(n), fl, b64);
    TextToInt(n, fl, b64);
    TextToBigint(m, fl, b64);
  }

  lemma TextToInt(n: i32, fl: FloatOps, b64: Base64)
    ensures TryFromExisting(AlbaType.Int(0), Text(IntToString(n)), fl, b64) == Ok(AlbaType.Int(n))
  {
    IntTextRoundTrip(n, I32_MIN, I32_MAX);
    assert TryFromExisting(AlbaType.Int(0), Text(IntToString(n)), fl, b64) == ToInt(Text(IntToString(n)), fl);
  }

  lemma TextToBigint(m: i64, fl: FloatOps, b64: Base64)
    ensures TryFromExisting(Bigint(0), Text(IntToString(m)), fl, b64) == Ok(Bigint(m))
  {
    IntTextRoundTrip(m, I64_MIN, I64_MAX);
    assert TryFromExisting(Bigint(0), Text(IntToString(m)), fl, b64) == ToBigint(Text(IntToString(m)), fl);
  }

  /** The text of a boolean parses back to it. */
  lemma ParseBoolText(b: bool)
    ensures ParseBool(BoolText(b)) == Some(b)
  {
    var s := BoolText(b);
    TrimOfTrimmed(s);
    assert Lower(s) == s;
  }

  /** A Bool written as Text reads back as the same Bool. */
  lemma BoolTextRoundTrip(b: bool, fl: FloatOps, b64: Base64)
    ensures TryFromExisting(AlbaType.Bool(false), TryFromExisting(Text(""), AlbaType.Bool(b), fl, b64).value, fl, b64)
      == Ok(AlbaType.Bool(b))
  {
    BoolToText(b, fl, b64);
    ParseBoolText(b);
    TextToBool(BoolText(b), b, fl, b64);
  }

  lemma BoolToText(b: bool, fl: FloatOps, b64: Base64)
    ensures TryFromExisting(Text(""), AlbaType.Bool(b), fl, b64) == Ok(Text(BoolText(b)))
  {
    assert StringOf(AlbaType.Bool(b), fl, b64) == Ok(BoolText(b));
  }

  lemma TextToBool(t: string, b: bool, fl: FloatOps, b64: Base64)
    requires ParseBool(t) == Some(b)
    ensures TryFromExisting(AlbaType.Bool(false), Text(t), fl, b64) == Ok(AlbaType.Bool(b))
  {
    var target := AlbaType.Bool(false);
    assert !IsStringKind(target) && !IsBytesKind(target);
    assert TryFromExisting(target, Text(t), fl, b64) == ToBool(Text(t), fl);
  }

  /** A Bigint narrows to Int exactly when it is within the i32 range, keeping its value;
      widening an Int to Bigint and narrowing it back is the identity. */
  lemma NarrowingBigint(n: i64, m: i32, fl: FloatOps, b64: Base64)
    ensures TryFromExisting(AlbaType.Int(0), Bigint(n), fl, b64).Ok? <==> I32_MIN <= n <= I32_MAX
    ensures TryFromExisting(AlbaType.Int(0), Bigint(n), fl, b64).Ok? ==>
      TryFromExisting(AlbaType.Int(0), Bigint(n), fl, b64).value.int32 == n
    ensures TryFromExisting(AlbaType.Int(0), TryFromExisting(Bigint(0), AlbaType.Int(m), fl, b64).value, fl, b64)
      == Ok(AlbaType.Int(m))
  {
  }

  /** Only a one-byte string coerces to Char: a single non-ASCII character is refused. */
  lemma CharFromString(s: string, fl: FloatOps, b64: Base64)
    ensures TryFromExisting(Char(0 as char), Text(s), fl, b64).Ok? <==> |s| == 1 && s[0] as int < 0x80
  {
    Utf8LenOne(s);
  }

  // ---- reading a literal token as a value ----

  /** The outcome of `AlbaTypes::try_from(Token)`, whose error is a plain message. */
  datatype Conversion = Converted(value: AlbaType) | Refused(reason: Refusal)

  /** Why a token is not a value: a keyword that names no type, or a token of another kind
      (as `{:#?}` renders it). */
  datatype Refusal = UnknownTypeKeyword(word: string) | UnsupportedToken(rendered: string)

  /** The error message `AlbaTypes::try_from(Token)` returns for a refusal. */
  function Message(r: Refusal): string {
    match r
    case UnknownTypeKeyword(word) => "Unknown type keyword: " + word
    case UnsupportedToken(rendered) =>
      "Cannot convert token to AlbaTypes: unsupported token type " + rendered +
      ". Expected one of: String, Int, Float, Bool, or Keyword (for type definitions)."
  }

  /** The value a column-type keyword stands for (the default of that type). */
  function TypeKeyword(word: string): (r: Option<AlbaType>)
    ensures word == [] ==> r.None?
    ensures r.Some? ==> !r.value.NONE? && !r.value.Char?
    ensures r.Some? && IsStringKind(r.value) ==> r.value.text == []
    ensures r.Some? && IsBytesKind(r.value) ==> r.value.bytes == []
  {
    match word
    case "INT" => Some(AlbaType.Int(0))
    case "BIGINT" => Some(Bigint(0))
    case "FLOAT" => Some(AlbaType.Float(ZERO_F64))
    case "BOOL" => Some(AlbaType.Bool(false))
    case "TEXT" => Some(Text(""))
    case "NANO-STRING" => Some(NanoString(""))
    case "SMALL-STRING" => Some(SmallString(""))
    case "MEDIUM-STRING" => Some(MediumString(""))
    case "BIG-STRING" => Some(BigString(""))
    case "LARGE-STRING" => Some(LargeString(""))
    case "NANO-BYTES" => Some(NanoBytes([]))
    case "SMALL-BYTES" => Some(SmallBytes([]))
    case "MEDIUM-BYTES" => Some(MediumBytes([]))
    case "BIG-BYTES" => Some(BigSBytes([]))
    case "LARGE-BYTES" => Some(LargeBytes([]))
    case _ => None
  }

  /** The type a byte literal of length l is stored as. */
  function BytesClass(b: seq<byte>): (v: AlbaType)
    ensures IsBytesKind(v) && v.bytes == b
  {
    var l := |b|;
    if l <= 10 then NanoBytes(b)
    else if 10 < l <= 1000 then SmallBytes(b)
    else if 1000 < l <= 10000 then MediumBytes(b)
    else if 10000 < l <= 100000 then BigSBytes(b)
    else LargeBytes(b)
  }

  /** `AlbaTypes::try_from(Token)`; debug renders a token as `{:#?}` does. */
  function TryFromToken(t: Token, debug: Token -> string): (r: Conversion)
    ensures r.Converted? <==> (t.Bytes? || t.String? || t.Int? || t.Float? || t.Bool? ||
                               (t.Keyword? && TypeKeyword(Trim(Upper(t.word))).Some?))
    ensures t.String? ==> r == Converted(Text(t.text))
  {
    match t
    case Bytes(b) => Converted(BytesClass(b))
    case String(s) => Converted(Text(s))
    case Int(i) => if I32_MIN <= i <= I32_MAX then Converted(AlbaType.Int(i)) else Converted(Bigint(i))
    case Float(f) => Converted(AlbaType.Float(f))
    case Bool(b) => Converted(AlbaType.Bool(b))
    case Keyword(s) => FromTypeKeyword(s)
    case _ => Refused(UnsupportedToken(debug(t)))
  }

  /** A keyword token read as a column type: the default value of that type, in any letter case. */
  function FromTypeKeyword(s: string): (r: Conversion)
    ensures r.Converted? <==> TypeKeyword(Trim(Upper(s))).Some?
  {
    match TypeKeyword(Trim(Upper(s)))
    case Some(v) => Converted(v)
    case None => Refused(UnknownTypeKeyword(s))
  }

  /** A byte literal goes to the narrowest byte type wide enough for it; one longer than the
      widest type still becomes LargeBytes, unpadded and over-long. */
  lemma BytesLiteralClass(b: seq<byte>, debug: Token -> string)
    ensures var v := TryFromToken(Bytes(b), debug).value;
      && IsBytesKind(v) && v.bytes == b
      && (|b| <= 1_000_000 ==> |b| <= BytesWidth(v))
      && (v.SmallBytes? ==> |b| > 10)
      && (v.MediumBytes? ==> |b| > 1000)
      && (v.BigSBytes? ==> |b| > 10000)
      && (v.LargeBytes? ==> |b| > 100000)
  {
  }

  /** An integer literal keeps its value, as an Int when it fits in 32 bits and a Bigint otherwise. */
  lemma IntegerLiteralValue(i: i64, debug: Token -> string)
    ensures var v := TryFromToken(Token.Int(i), debug).value;
      (v.Int? && v.int32 == i && I32_MIN <= i <= I32_MAX) || (v.Bigint? && v.int64 == i && !(I32_MIN <= i <= I32_MAX))
  {
  }

  /** Type keywords are recognised in any ASCII letter case. */
  lemma TypeKeywordAnyCase(s: string, debug: Token -> string)
    ensures TryFromToken(Keyword(Lower(s)), debug).Converted? <==> TryFromToken(Keyword(Upper(s)), debug).Converted?
  {
    assert Upper(Lower(s)) == Upper(Upper(s)) by {
      forall k | 0 <= k < |s| ensures Upper(Lower(s))[k] == Upper(Upper(s))[k] { }
    }
  }
}
