/**
 * The integer side of `HexLutManager` (Src/RTL/Scripts/hex_utils.py): the
 * byte-order symbol of a target order, two's-complement packing of a
 * fixed-width integer in that order, the lowercase hex text of the bytes
 * (`bytes.hex`), its decoding back (`bytes.fromhex` and the checks of
 * `hex_to_dtype`), the `.hex` file-name rule of `_get_valid_file_path` and
 * the header skip of `read_lut_from_hex`.
 *
 * The host's byte order (`sys.byteorder`) is a parameter `hostLittle`.
 */
module HexUtils {
  import opened Common
  import opened ExtendedEnums

  /** `BYTEORDER` of the interpreter's dataclass module. */
  datatype ByteOrder = Little | Big | Native

  /** `_get_byte_order_symbol_from_sys`. */
  function SysSymbol(hostLittle: bool): char {
    if hostLittle then '<' else '>'
  }

  /** `_get_byte_order_symbol_from_target`: '>' is big-endian, '<' little-endian. */
  function ByteOrderSymbol(target: ByteOrder, hostLittle: bool): (r: char)
    ensures r == '<' || r == '>'
    ensures r == '<' <==> target.Little? || (target.Native? && hostLittle)
    ensures target.Native? ==> r == SysSymbol(hostLittle)
  {
    match target
    case Big => '>'
    case Little => '<'
    case Native => SysSymbol(hostLittle)
  }

  newtype byte = x: int | 0 <= x < 256

  // ------------------------------------------------------ integer dtypes

  predicate IsIntType(t: NpType) {
    t.Int8? || t.Int16? || t.Int32? || t.Int64? || t.UInt8? || t.UInt16? || t.UInt32? || t.UInt64?
  }

  predicate IsSigned(t: NpType) {
    t.Int8? || t.Int16? || t.Int32? || t.Int64?
  }

  /** `np.dtype(t).itemsize` for the integer types. */
  function ItemSize(t: NpType): (r: nat)
    requires IsIntType(t)
    ensures 1 <= r <= 8
  {
    match t
    case Int8 | UInt8 => 1
    case Int16 | UInt16 => 2
    case Int32 | UInt32 => 4
    case _ => 8
  }

  function Pow256(k: nat): (r: nat)
    ensures r >= 1
  {
    if k == 0 then 1 else 256 * Pow256(k - 1)
  }

  lemma {:induction false} Pow256IsPow2(k: nat)
    ensures Pow256(k) == Pow2(8 * k)
  {
    if k > 0 {
      Pow256IsPow2(k - 1);
      Pow2Add(8, 8 * (k - 1));
      assert Pow2(8) == 256;
    }
  }

  /** `2^(8 * itemsize)`: the number of bit patterns of `t`. */
  function Modulus(t: NpType): nat
    requires IsIntType(t)
  {
    match t
    case Int8 | UInt8 => 0x100
    case Int16 | UInt16 => 0x1_0000
    case Int32 | UInt32 => 0x1_0000_0000
    case _ => 0x1_0000_0000_0000_0000
  }

  /** Half of `Modulus(t)`: the bound of the signed types. */
  function Half(t: NpType): (h: nat)
    requires IsIntType(t)
    ensures Modulus(t) == 2 * h
  {
    match t
    case Int8 | UInt8 => 0x80
    case Int16 | UInt16 => 0x8000
    case Int32 | UInt32 => 0x8000_0000
    case _ => 0x8000_0000_0000_0000
  }

  lemma ModulusIsPow256(t: NpType)
    requires IsIntType(t)
    ensures Modulus(t) == Pow256(ItemSize(t))
  {
    assert Pow256(1) == 0x100;
    assert Pow256(2) == 0x1_0000;
    assert Pow256(4) == 0x1_0000_0000;
    assert Pow256(8) == 0x1_0000_0000_0000_0000;
  }

  /** The values a numpy integer of type `t` can hold. */
  predicate InRange(t: NpType, v: int)
    requires IsIntType(t)
  {
    if IsSigned(t) then -(Half(t) as int) <= v < Half(t) else 0 <= v < Modulus(t)
  }

  /** The stored bit pattern of `v` (two's complement for the signed types). */
  function Encode(t: NpType, v: int): (n: nat)
    requires IsIntType(t) && InRange(t, v)
    ensures n < Modulus(t)
  {
    if v < 0 then v + Modulus(t) else v
  }

  /** The value a bit pattern stands for in type `t`. */
  function Interpret(t: NpType, n: nat): int
    requires IsIntType(t)
  {
    if IsSigned(t) && n >= Half(t) then n - Modulus(t) else n
  }

  lemma InterpretEncode(t: NpType, v: int)
    requires IsIntType(t) && InRange(t, v)
    ensures Interpret(t, Encode(t, v)) == v
  {
  }

  lemma EncodeInterpret(t: NpType, n: nat)
    requires IsIntType(t) && n < Modulus(t)
    ensures InRange(t, Interpret(t, n)) && Encode(t, Interpret(t, n)) == n
  {
  }

  // ------------------------------------------------------ bytes of a value

  /** The `k` bytes of `n`, most significant first. */
  function BytesBE(n: nat, k: nat): (r: seq<byte>)
    ensures |r| == k
  {
    if k == 0 then [] else BytesBE(n / 256, k - 1) + [(n % 256) as byte]
  }

  /** The value of bytes read most significant first. */
  function ValueBE(bs: seq<byte>): (n: nat)
    ensures n < Pow256(|bs|)
  {
    if bs == [] then 0 else ValueBE(bs[..|bs| - 1]) * 256 + bs[|bs| - 1] as nat
  }

  lemma {:induction false} ValueOfBytes(n: nat, k: nat)
    requires n < Pow256(k)
    ensures ValueBE(BytesBE(n, k)) == n
  {
    if k > 0 {
      ValueOfBytes(n / 256, k - 1);
      var bs := BytesBE(n, k);
      assert bs[..k - 1] == BytesBE(n / 256, k - 1);
    }
  }

  lemma {:induction false} BytesOfValue(bs: seq<byte>)
    ensures BytesBE(ValueBE(bs), |bs|) == bs
  {
    if bs != [] {
      var init := bs[..|bs| - 1];
      BytesOfValue(init);
      var n := ValueBE(bs);
      assert n / 256 == ValueBE(init);
      assert bs == init + [bs[|bs| - 1]];
    }
  }

  /** Bytes stored most significant first, put in the order a symbol names. */
  function InOrder(bs: seq<byte>, symbol: char): seq<byte> {
    if symbol == '>' then bs else Reverse(bs)
  }

  lemma InOrderTwice(bs: seq<byte>, symbol: char)
    ensures InOrder(InOrder(bs, symbol), symbol) == bs
  {
    if symbol != '>' {
      ReverseReverse(bs);
    }
  }

  /**
   * `_convert_to_byte_order` on a numpy integer as its authors intend: the
   * value's bytes in the target order. `ConvertToByteOrderAsWritten` is what
   * the code does.
   */
  function ConvertToByteOrder(t: NpType, v: int, target: ByteOrder, hostLittle: bool): (r: seq<byte>)
    requires IsIntType(t) && InRange(t, v)
    ensures |r| == ItemSize(t)
  {
    InOrder(BytesBE(Encode(t, v), ItemSize(t)), ByteOrderSymbol(target, hostLittle))
  }

  /** The packed bytes, read back in the target order, give the value. */
  lemma ConvertReadsBack(t: NpType, v: int, target: ByteOrder, hostLittle: bool)
    requires IsIntType(t) && InRange(t, v)
    ensures Interpret(t, ValueBE(InOrder(ConvertToByteOrder(t, v, target, hostLittle), ByteOrderSymbol(target, hostLittle)))) == v
  {
    var symbol := ByteOrderSymbol(target, hostLittle);
    var be := BytesBE(Encode(t, v), ItemSize(t));
    ModulusIsPow256(t);
    ValueOfBytes(Encode(t, v), ItemSize(t));
    InterpretEncode(t, v);
    InOrderTwice(be, symbol);
  }

  /**
   * `_convert_to_byte_order` as written, on a numpy integer scalar. A
   * multi-byte dtype reports the byte order '=', which is read as the host's
   * symbol; a one-byte dtype reports '|', which is never a target symbol.
   * When the current order is the target, `f.tobytes(target_order)` passes
   * '<' or '>' where numpy expects a memory layout ('C', 'F', 'A' or 'K'),
   * which is a ValueError. Otherwise `astype` converts the scalar; a numpy
   * scalar keeps its value in the host's order, so `tobytes()` gives the
   * bytes in the host's order.
   */
  function ConvertToByteOrderAsWritten(t: NpType, v: int, target: ByteOrder, hostLittle: bool): (r: Result<seq<byte>>)
    requires IsIntType(t) && InRange(t, v)
    ensures r.Err? <==> ItemSize(t) > 1 && ByteOrderSymbol(target, hostLittle) == SysSymbol(hostLittle)
    ensures r.Err? ==> r.error == ValueError
    ensures r.Ok? ==> r.value == ConvertToByteOrder(t, v, Native, hostLittle)
  {
    var current := if ItemSize(t) == 1 then '|' else SysSymbol(hostLittle);
    if current == ByteOrderSymbol(target, hostLittle) then Err(ValueError)
    else Ok(InOrder(BytesBE(Encode(t, v), ItemSize(t)), SysSymbol(hostLittle)))
  }

  /**
   * Against the intended conversion: one-byte types agree; for wider types
   * the code either raises (target in the host's order) or gives the
   * intended bytes reversed (the other order).
   */
  lemma ConvertAsWrittenAgainstIntended(t: NpType, v: int, target: ByteOrder, hostLittle: bool)
    requires IsIntType(t) && InRange(t, v)
    ensures ItemSize(t) == 1 ==>
      ConvertToByteOrderAsWritten(t, v, target, hostLittle) == Ok(ConvertToByteOrder(t, v, target, hostLittle))
    ensures ItemSize(t) > 1 && ConvertToByteOrderAsWritten(t, v, target, hostLittle).Ok? ==>
      ConvertToByteOrderAsWritten(t, v, target, hostLittle).value == Reverse(ConvertToByteOrder(t, v, target, hostLittle))
  {
    var be := BytesBE(Encode(t, v), ItemSize(t));
    if ItemSize(t) == 1 {
      assert Reverse(be) == be by {
        assert be == [be[0]];
        assert Reverse([be[0]]) == [be[0]];
      }
    } else if ConvertToByteOrderAsWritten(t, v, target, hostLittle).Ok? {
      if SysSymbol(hostLittle) != '>' {
        assert ByteOrderSymbol(target, hostLittle) == '>';
      } else {
        ReverseReverse(be);
      }
    }
  }

  // ------------------------------------------------------------ hex text

  function HexDigit(d: nat): (c: char)
    requires d < 16
  {
    if d < 10 then ('0' as int + d) as char else ('a' as int + d - 10) as char
  }

  predicate IsLowerHexChar(c: char) {
    '0' <= c <= '9' || 'a' <= c <= 'f'
  }

  /** `bytes.hex()`: two lowercase hex digits per byte, high nibble first. */
  function ToHex(bs: seq<byte>): (r: string)
    ensures |r| == 2 * |bs|
    ensures forall k :: 0 <= k < |r| ==> IsLowerHexChar(r[k])
  {
    if bs == [] then "" else [HexDigit(bs[0] as nat / 16), HexDigit(bs[0] as nat % 16)] + ToHex(bs[1..])
  }

  function HexValue(c: char): (r: Option<nat>)
    ensures r.Some? ==> r.value < 16
  {
    if '0' <= c <= '9' then Some(c as int - '0' as int)
    else if 'a' <= c <= 'f' then Some(c as int - 'a' as int + 10)
    else if 'A' <= c <= 'F' then Some(c as int - 'A' as int + 10)
    else None
  }

  /** The ASCII whitespace `bytes.fromhex` skips between byte pairs. */
  const HexSpace: set<char> := {' ', '\t', '\n', '\r', '\U{0b}', '\U{0c}'}

  /**
   * `bytes.fromhex`: pairs of hex digits, whitespace allowed between pairs;
   * anything else, or a lone digit, is a ValueError.
   */
  function FromHex(s: string): (r: Result<seq<byte>>)
    ensures r.Err? ==> r.error == ValueError
    ensures r.Ok? ==> 2 * |r.value| <= |s|
  {
    if s == "" then Ok([])
    else if s[0] in HexSpace then FromHex(s[1..])
    else if |s| < 2 then Err(ValueError)
    else match (HexValue(s[0]), HexValue(s[1]))
      case (Some(hi), Some(lo)) =>
        (match FromHex(s[2..])
         case Ok(rest) => Ok([(16 * hi + lo) as byte] + rest)
         case Err(e) => Err(e))
      case _ => Err(ValueError)
  }

  lemma {:induction false} FromHexToHex(bs: seq<byte>)
    ensures FromHex(ToHex(bs)) == Ok(bs)
  {
    if bs != [] {
      FromHexToHex(bs[1..]);
      var s := ToHex(bs);
      assert s[2..] == ToHex(bs[1..]);
      assert [bs[0]] + bs[1..] == bs;
    }
  }

  lemma HexDigitOfValue(c: char)
    requires HexValue(c).Some?
    ensures HexDigit(HexValue(c).value) == LowerChar(c)
  {
  }

  lemma HexPair(hi: nat, lo: nat)
    requires hi < 16 && lo < 16
    ensures (16 * hi + lo) / 16 == hi && (16 * hi + lo) % 16 == lo
  {
  }

  /** Decoding hex without whitespace and encoding again gives the text in lower case. */
  lemma {:induction false} ToHexFromHex(s: string, bs: seq<byte>)
    requires forall k :: 0 <= k < |s| ==> s[k] !in HexSpace
    requires FromHex(s) == Ok(bs)
    ensures ToHex(bs) == Lower(s)
  {
    if s != "" {
      var hi := HexValue(s[0]).value;
      var lo := HexValue(s[1]).value;
      var rest := FromHex(s[2..]).value;
      ToHexFromHex(s[2..], rest);
      assert bs == [(16 * hi + lo) as byte] + rest;
      HexPair(hi, lo);
      HexDigitOfValue(s[0]);
      HexDigitOfValue(s[1]);
      assert bs[1..] == rest;
      assert ToHex(bs) == [LowerChar(s[0]), LowerChar(s[1])] + Lower(s[2..]);
      assert Lower(s) == [LowerChar(s[0]), LowerChar(s[1])] + Lower(s[2..]);
    }
  }

  // ------------------------------------------------------------ int_to_hex

  /** Python's `int.bit_length()`: the number of bits of `abs(v)`. */
  function BitLength(v: int): (r: nat)
    ensures r == 0 <==> v == 0
    decreases if v < 0 then -v else v
  {
    var a := if v < 0 then -v else v;
    if a == 0 then 0 else 1 + BitLength(a / 2)
  }

  lemma {:induction false} BitLengthBound(v: int, b: nat)
    requires BitLength(v) <= b
    ensures -(Pow2(b) as int) < v < Pow2(b)
    decreases if v < 0 then -v else v
  {
    var a := if v < 0 then -v else v;
    if a != 0 {
      BitLengthBound(a / 2, b - 1);
    }
  }

  /** A Python int that `int_to_hex` packs into `t` fits in `t`. */
  lemma WidthFits(v: int, t: NpType, bits: nat)
    requires (t == Int32 && bits == 30) || (t == Int64 && bits == 62)
    requires BitLength(v) <= bits
    ensures IsIntType(t) && InRange(t, v)
  {
    BitLengthBound(v, bits);
    Pow256IsPow2(ItemSize(t));
    ModulusIsPow256(t);
    Pow2Monotone(bits, bits + 1);
    assert Pow2(8 * ItemSize(t)) == 2 * Pow2(bits + 1);
    assert Modulus(t) == Pow2(8 * ItemSize(t));
  }

  /** The argument of `int_to_hex`: a Python int, a numpy integer, or anything else. */
  datatype IntArg = PyInt(v: int) | NpInteger(t: NpType, n: int) | NotAnInt

  /** A numpy integer holds a value of its own type. */
  predicate WellTyped(i: IntArg) {
    i.NpInteger? ==> IsIntType(i.t) && InRange(i.t, i.n)
  }

  /**
   * The width `int_to_hex` gives a Python int from its bit length: int32
   * below 31 bits, int64 below 63; `np.int128` does not exist, so 63 to 126
   * bits fail on that attribute; wider ints are a ValueError.
   */
  function PyIntType(v: int): (r: Result<NpType>)
    ensures r.Ok? ==> IsIntType(r.value) && InRange(r.value, v)
  {
    var bits := BitLength(v);
    if 0 <= bits < 31 then WidthFits(v, Int32, 30); Ok(Int32)
    else if 31 <= bits < 63 then WidthFits(v, Int64, 62); Ok(Int64)
    else if 63 <= bits < 127 then Err(AttributeError)
    else Err(ValueError)
  }

  /** `int_to_hex(i, target_order)`. */
  function IntToHex(i: IntArg, target: ByteOrder, hostLittle: bool): (r: Result<string>)
    requires WellTyped(i)
    ensures i.NotAnInt? ==> r == Err(TypeError)
    ensures i.NpInteger? ==> r.Ok? && |r.value| == 2 * ItemSize(i.t)
  {
    match i
    case NotAnInt => Err(TypeError)
    case NpInteger(t, n) => Ok(ToHex(ConvertToByteOrder(t, n, target, hostLittle)))
    case PyInt(v) =>
      match PyIntType(v)
      case Err(e) => Err(e)
      case Ok(t) => Ok(ToHex(ConvertToByteOrder(t, v, target, hostLittle)))
  }

  /**
   * A Python int is packed as int32 (8 hex digits) below 31 bits and as
   * int64 (16 digits) below 63; 63 to 126 bits fail on the missing
   * `np.int128`, and 127 bits or more are a ValueError.
   */
  lemma IntToHexOutcome(v: int, target: ByteOrder, hostLittle: bool)
    ensures var r := IntToHex(PyInt(v), target, hostLittle);
      && (r.Ok? <==> BitLength(v) < 63)
      && (r.Ok? ==> |r.value| == (if BitLength(v) < 31 then 8 else 16))
      && (63 <= BitLength(v) < 127 ==> r == Err(AttributeError))
      && (BitLength(v) >= 127 ==> r == Err(ValueError))
  {
  }

  /** `bytes.hex()` of a conversion's outcome. */
  function HexOfBytes(r: Result<seq<byte>>): Result<string> {
    match r
    case Err(e) => Err(e)
    case Ok(bs) => Ok(ToHex(bs))
  }

  /**
   * `int_to_hex(i, target_order)` as written, over the conversion as
   * written: a wide integer whose target is the host's order raises, and
   * any other target gives the host-order text.
   */
  function IntToHexAsWritten(i: IntArg, target: ByteOrder, hostLittle: bool): (r: Result<string>)
    requires WellTyped(i)
    ensures i.NotAnInt? ==> r == Err(TypeError)
    ensures i.PyInt? ==> (r.Ok? <==> BitLength(i.v) < 63 && ByteOrderSymbol(target, hostLittle) != SysSymbol(hostLittle))
    ensures i.NpInteger? ==> (r.Ok? <==> ItemSize(i.t) == 1 || ByteOrderSymbol(target, hostLittle) != SysSymbol(hostLittle))
    ensures r.Ok? ==> r == IntToHex(i, Native, hostLittle)
  {
    match i
    case NotAnInt => Err(TypeError)
    case NpInteger(t, n) => HexOfBytes(ConvertToByteOrderAsWritten(t, n, target, hostLittle))
    case PyInt(v) =>
      match PyIntType(v)
      case Err(e) => Err(e)
      case Ok(t) => HexOfBytes(ConvertToByteOrderAsWritten(t, v, target, hostLittle))
  }

  /**
   * As written, the NATIVE target raises for every Python int that fits,
   * and on a little-endian host the default BIG target writes 1 as
   * "01000000", where the intended writer gives "00000001".
   */
  lemma IntToHexAsWrittenExamples(v: int, hostLittle: bool)
    requires BitLength(v) < 63
    ensures IntToHexAsWritten(PyInt(v), Native, hostLittle) == Err(ValueError)
    ensures IntToHexAsWritten(PyInt(1), Big, true) == Ok("01000000")
    ensures IntToHex(PyInt(1), Big, true) == Ok("00000001")
  {
    OneWrittenLittleEndian();
  }

  /** On a little-endian host, 1 asked for big endian comes out in host order. */
  lemma OneWrittenLittleEndian()
    ensures IntToHexAsWritten(PyInt(1), Big, true) == Ok("01000000")
    ensures IntToHex(PyInt(1), Big, true) == Ok("00000001")
  {
    var be: seq<byte> := [0, 0, 0, 1];
    var le: seq<byte> := [1, 0, 0, 0];
    assert BitLength(1) == 1;
    OneAsInt32(be);
    assert Reverse(be) == le;
    OneHex(be);
    OneHexLittle(le);
  }

  lemma OneHexLittle(le: seq<byte>)
    requires le == [1, 0, 0, 0]
    ensures ToHex(le) == "01000000"
  {
    assert ToHex([0]) == "00";
    assert ToHex([0, 0]) == "0000";
    assert ToHex([0, 0, 0]) == "000000";
  }

  /**
   * Whatever target the writer as written was given, its text reads back
   * through `hex_to_int` with the NATIVE order, the reading default.
   */
  lemma AsWrittenReadsBackNative(t: NpType, v: int, target: ByteOrder, hostLittle: bool)
    requires IsIntType(t) && InRange(t, v)
    requires IntToHexAsWritten(NpInteger(t, v), target, hostLittle).Ok?
    ensures HexToInt(IntToHexAsWritten(NpInteger(t, v), target, hostLittle).value, t, Native, hostLittle) == Ok(v)
  {
    NpIntegerRoundTrip(t, v, Native, hostLittle);
  }

  // ------------------------------------------------- hex_to_dtype / hex_to_int

  /** The checks of `hex_to_dtype`: even length, valid hex, exactly `size` bytes. */
  function CheckedBytes(hexStr: string, size: nat): (r: Result<seq<byte>>)
    ensures r.Ok? ==> |r.value| == size
    ensures r.Err? ==> r.error == ValueError
    ensures |hexStr| % 2 != 0 ==> r.Err?
  {
    if |hexStr| % 2 != 0 then Err(ValueError)
    else match FromHex(hexStr)
      case Err(e) => Err(e)
      case Ok(bs) => if |bs| != size then Err(ValueError) else Ok(bs)
  }

  /** Without whitespace, `bytes.fromhex` gives one byte per two characters. */
  lemma {:induction false} FromHexLength(s: string)
    requires forall k :: 0 <= k < |s| ==> s[k] !in HexSpace
    requires FromHex(s).Ok?
    ensures 2 * |FromHex(s).value| == |s|
  {
    if s != "" {
      FromHexLength(s[2..]);
    }
  }

  /** Hex text (without whitespace) of any length but twice the item size is refused. */
  lemma WrongLengthRejected(hexStr: string, size: nat)
    requires forall k :: 0 <= k < |hexStr| ==> hexStr[k] !in HexSpace
    requires |hexStr| != 2 * size
    ensures CheckedBytes(hexStr, size).Err?
  {
    if |hexStr| % 2 == 0 && FromHex(hexStr).Ok? {
      FromHexLength(hexStr);
    }
  }

  /**
   * `hex_to_int` as written: after the checks pass, `hex_to_dtype` calls
   * `newBYTEORDER`, which numpy's dtype does not have, so no input decodes.
   */
  function HexToIntAsWritten(hexStr: string, t: NpType, target: ByteOrder, hostLittle: bool): (r: Result<int>)
    requires IsIntType(t)
    ensures r.Err?
    ensures CheckedBytes(hexStr, ItemSize(t)).Ok? ==> r == Err(AttributeError)
  {
    match CheckedBytes(hexStr, ItemSize(t))
    case Err(e) => Err(e)
    case Ok(_) => Err(AttributeError)
  }

  /** `hex_to_int` with `newbyteorder`: the bytes read in the target order as a value of `t`. */
  function HexToInt(hexStr: string, t: NpType, target: ByteOrder, hostLittle: bool): (r: Result<int>)
    requires IsIntType(t)
    ensures r.Ok? <==> CheckedBytes(hexStr, ItemSize(t)).Ok?
    ensures r.Err? ==> r.error == ValueError
    ensures r.Ok? ==> InRange(t, r.value)
  {
    match CheckedBytes(hexStr, ItemSize(t))
    case Err(e) => Err(e)
    case Ok(bs) =>
      var n := ValueBE(InOrder(bs, ByteOrderSymbol(target, hostLittle)));
      assert |InOrder(bs, ByteOrderSymbol(target, hostLittle))| == ItemSize(t);
      ModulusIsPow256(t);
      EncodeInterpret(t, n);
      Ok(Interpret(t, n))
  }

  /**
   * `hex_to_int` reads back what `int_to_hex` writes for a numpy integer of
   * the same type and byte order; as written it fails on `newBYTEORDER`.
   */
  lemma NpIntegerRoundTrip(t: NpType, v: int, target: ByteOrder, hostLittle: bool)
    requires IsIntType(t) && InRange(t, v)
    ensures var h := IntToHex(NpInteger(t, v), target, hostLittle);
      && h.Ok?
      && HexToInt(h.value, t, target, hostLittle) == Ok(v)
      && HexToIntAsWritten(h.value, t, target, hostLittle) == Err(AttributeError)
  {
    var bs := ConvertToByteOrder(t, v, target, hostLittle);
    HexToIntOfBytes(bs, t, target, hostLittle);
    ConvertReadsBack(t, v, target, hostLittle);
  }

  /** The hex text of `itemsize` bytes passes the checks and decodes to the bytes' value. */
  lemma HexToIntOfBytes(bs: seq<byte>, t: NpType, target: ByteOrder, hostLittle: bool)
    requires IsIntType(t) && |bs| == ItemSize(t)
    ensures HexToInt(ToHex(bs), t, target, hostLittle)
      == Ok(Interpret(t, ValueBE(InOrder(bs, ByteOrderSymbol(target, hostLittle)))))
    ensures HexToIntAsWritten(ToHex(bs), t, target, hostLittle) == Err(AttributeError)
  {
    CheckedBytesOfHex(bs);
  }

  lemma CheckedBytesOfHex(bs: seq<byte>)
    ensures CheckedBytes(ToHex(bs), |bs|) == Ok(bs)
  {
    TwiceIsEven(|bs|);
    FromHexToHex(bs);
  }

  lemma TwiceIsEven(n: nat)
    ensures (2 * n) % 2 == 0
  {
  }

  /** A Python int below 63 bits comes back from the width `int_to_hex` chose for it. */
  lemma PyIntRoundTrip(v: int, target: ByteOrder, hostLittle: bool)
    requires BitLength(v) < 63
    ensures var t := if BitLength(v) < 31 then Int32 else Int64;
      && IntToHex(PyInt(v), target, hostLittle).Ok?
      && HexToInt(IntToHex(PyInt(v), target, hostLittle).value, t, target, hostLittle) == Ok(v)
  {
    var t := PyIntType(v).value;
    NpIntegerRoundTrip(t, v, target, hostLittle);
  }

  /**
   * Conversely, whatever `hex_to_int` accepts (written without whitespace)
   * is, in lower case, what `int_to_hex` gives for the decoded value as a
   * numpy integer of the same type.
   */
  lemma HexToIntInverse(s: string, t: NpType, target: ByteOrder, hostLittle: bool)
    requires IsIntType(t)
    requires forall k :: 0 <= k < |s| ==> s[k] !in HexSpace
    requires HexToInt(s, t, target, hostLittle).Ok?
    ensures var v := HexToInt(s, t, target, hostLittle).value;
      EntryHex(t, v, target, hostLittle) == Lower(s)
  {
    var bs := CheckedBytes(s, ItemSize(t)).value;
    PackDecoded(t, bs, target, hostLittle);
    ToHexFromHex(s, bs);
  }

  /** Packing the value that `itemsize` bytes decode to gives the same bytes. */
  lemma PackDecoded(t: NpType, bs: seq<byte>, target: ByteOrder, hostLittle: bool)
    requires IsIntType(t) && |bs| == ItemSize(t)
    ensures var n := ValueBE(InOrder(bs, ByteOrderSymbol(target, hostLittle)));
      n < Modulus(t) && ConvertToByteOrder(t, Interpret(t, n), target, hostLittle) == bs
  {
    var symbol := ByteOrderSymbol(target, hostLittle);
    var ordered := InOrder(bs, symbol);
    var n := ValueBE(ordered);
    ModulusIsPow256(t);
    EncodeInterpret(t, n);
    BytesOfValue(ordered);
    InOrderTwice(bs, symbol);
  }

  /**
   * With the intended conversion, the write default (BIG) and the read
   * default (NATIVE) disagree on a little-endian host: 1 written as int32
   * reads back as 2^24.
   */
  lemma DefaultOrdersDisagree()
    ensures IntToHex(NpInteger(Int32, 1), Big, true) == Ok("00000001")
    ensures HexToInt("00000001", Int32, Native, true) == Ok(16777216)
  {
    var be: seq<byte> := [0, 0, 0, 1];
    OneAsInt32(be);
    assert ConvertToByteOrder(Int32, 1, Big, true) == be;
    OneHex(be);
    HexToIntOfBytes(be, Int32, Native, true);
    LittleEndianOne(be);
  }

  lemma OneAsInt32(be: seq<byte>)
    requires be == [0, 0, 0, 1]
    ensures BytesBE(Encode(Int32, 1), 4) == be
  {
    assert BytesBE(0, 0) == [];
    assert BytesBE(0, 1) == [0];
    assert BytesBE(0, 2) == [0, 0];
    assert BytesBE(0, 3) == [0, 0, 0];
  }

  lemma OneHex(be: seq<byte>)
    requires be == [0, 0, 0, 1]
    ensures ToHex(be) == "00000001"
  {
    assert ToHex([1]) == "01";
    assert ToHex([0, 1]) == "0001";
    assert ToHex([0, 0, 1]) == "000001";
  }

  lemma LittleEndianOne(be: seq<byte>)
    requires be == [0, 0, 0, 1]
    ensures Interpret(Int32, ValueBE(InOrder(be, '<'))) == 16777216
  {
    var le: seq<byte> := [1, 0, 0, 0];
    assert Reverse(be) == le;
    assert ValueBE([1]) == 1;
    assert ValueBE([1, 0]) == 256;
    assert ValueBE([1, 0, 0]) == 65536;
    assert le[..3] == [1, 0, 0];
    assert [1, 0, 0][..2] == [1, 0];
    assert [1, 0][..1] == [1];
  }

  // ---------------------------------------------------- file-name handling

  /**
   * The extension `os.path.splitext` finds: from the last '.' of the final
   * path component, provided some character before it in that component is
   * not a '.'; otherwise empty.
   */
  function Ext(p: string): (ext: string)
    ensures ext == "" || (ext[0] == '.' && EndsWith(p, ext) && '/' !in ext)
  {
    var sep := RFind(p, '/');
    var dot := RFind(p, '.');
    if dot > sep && exists k :: sep + 1 <= k < dot && p[k] != '.' then
      assert p == p[..dot] + p[dot..];
      p[dot..]
    else ""
  }

  /** The extension rule of `_get_valid_file_path`. */
  function ValidFileName(fileName: string): (r: Result<string>)
    ensures r.Ok? <==> Ext(fileName) == "" || Ext(fileName) == ".hex"
    ensures r.Err? ==> r.error == ValueError
    ensures r.Ok? ==> EndsWith(r.value, ".hex")
    ensures r.Ok? ==> r.value == (if Ext(fileName) == "" then fileName + ".hex" else fileName)
  {
    var ext := Ext(fileName);
    if ext == "" then Ok(fileName + ".hex")
    else if ext != ".hex" then Err(ValueError)
    else Ok(fileName)
  }

  /** A name without any '.' gains the '.hex' extension. */
  lemma NoDotGainsHex(fileName: string)
    requires '.' !in fileName
    ensures ValidFileName(fileName) == Ok(fileName + ".hex")
  {
    assert RFind(fileName, '.') == -1;
  }

  /** `os.path.join(dir, name)` for POSIX paths. */
  function PathJoin(dir: string, name: string): string {
    if StartsWith(name, "/") then name
    else if dir == "" || EndsWith(dir, "/") then dir + name
    else dir + "/" + name
  }

  /**
   * `_get_valid_file_path(file_name, ow)`: the path in the managed directory;
   * with `ow` False an existing file is a FileExistsError. The files present
   * on disk are the parameter `existing`.
   */
  function ValidFilePath(dir: string, fileName: string, ow: Option<bool>, existing: set<string>): (r: Result<string>)
    ensures r.Ok? <==> (ValidFileName(fileName).Ok?
                        && !(ow == Some(false) && PathJoin(dir, ValidFileName(fileName).value) in existing))
    ensures r.Ok? ==> r.value == PathJoin(dir, ValidFileName(fileName).value)
    ensures r.Err? && ValidFileName(fileName).Ok? ==> r.error == FileExistsError
  {
    match ValidFileName(fileName)
    case Err(e) => Err(e)
    case Ok(name) =>
      var path := PathJoin(dir, name);
      if ow == Some(false) && path in existing then Err(FileExistsError) else Ok(path)
  }

  // ------------------------------------------------------- read_lut_from_hex

  /** A line the `dropwhile` of `read_lut_from_hex` skips. */
  predicate IsHeaderLine(ln: string) {
    StartsWith(ln, "//") || ln == "\n"
  }

  /** `itertools.dropwhile(IsHeaderLine, lines)`. */
  function DropHeader(lines: seq<string>): (r: seq<string>)
    ensures |r| <= |lines| && r == lines[|lines| - |r|..]
    ensures forall k :: 0 <= k < |lines| - |r| ==> IsHeaderLine(lines[k])
    ensures r == [] || !IsHeaderLine(r[0])
  {
    if lines == [] || !IsHeaderLine(lines[0]) then lines else DropHeader(lines[1..])
  }

  /** A line of the file, stripped and decoded with `hex_to_int`. */
  function DecodeLine(ln: string, t: NpType, target: ByteOrder, hostLittle: bool): Result<int>
    requires IsIntType(t)
  {
    HexToInt(Strip(ln), t, target, hostLittle)
  }

  /** The `dropwhile` of `read_lut_from_hex`: the index of the first line after the header. */
  method SkipHeader(lines: seq<string>) returns (k: nat)
    ensures k <= |lines| && lines[k..] == DropHeader(lines)
  {
    k := 0;
    while k < |lines| && IsHeaderLine(lines[k])
      invariant 0 <= k <= |lines|
      invariant DropHeader(lines) == DropHeader(lines[k..])
    {
      assert lines[k..][1..] == lines[k + 1..];
      k := k + 1;
    }
  }

  /** Each line stripped and decoded with `hex_to_int`; the first failure is raised. */
  function DecodeLines(lines: seq<string>, t: NpType, target: ByteOrder, hostLittle: bool): (r: Result<seq<int>>)
    requires IsIntType(t)
    ensures r.Ok? ==> |r.value| == |lines|
  {
    if lines == [] then Ok([])
    else
      var head := DecodeLine(lines[0], t, target, hostLittle);
      if head.Err? then Err(head.error)
      else
        var tail := DecodeLines(lines[1..], t, target, hostLittle);
        if tail.Err? then Err(tail.error) else Ok([head.value] + tail.value)
  }

  /** What `read_lut_from_hex` returns for a file whose lines are `lines`. */
  function ReadLutSpec(dir: string, fileName: string, lines: seq<string>,
                       t: NpType, target: ByteOrder, hostLittle: bool): Result<seq<int>>
    requires IsIntType(t)
  {
    match ValidFilePath(dir, fileName, None, {})
    case Err(e) => Err(e)
    case Ok(_) => DecodeLines(DropHeader(lines), t, target, hostLittle)
  }

  /** Prepends decoded values to the outcome of decoding the rest. */
  function Prepend(data: seq<int>, rest: Result<seq<int>>): Result<seq<int>> {
    match rest
    case Ok(vs) => Ok(data + vs)
    case Err(e) => Err(e)
  }

  /**
   * `read_lut_from_hex(file_name, dtype, hex_to_int, target_order)`, reading
   * the lines of the file (each with its '\n', as Python yields them).
   */
  method ReadLutFromHex(dir: string, fileName: string, lines: seq<string>,
                        t: NpType, target: ByteOrder, hostLittle: bool) returns (r: Result<seq<int>>)
    requires IsIntType(t)
    ensures r == ReadLutSpec(dir, fileName, lines, t, target, hostLittle)
  {
    var path := ValidFilePath(dir, fileName, None, {});
    if path.Err? {
      return Err(path.error);
    }
    var k := SkipHeader(lines);
    var data: seq<int> := [];
    var i := k;
    PrependNothing(DecodeLines(lines[k..], t, target, hostLittle));
    while i < |lines|
      invariant k <= i <= |lines|
      invariant DecodeLines(lines[k..], t, target, hostLittle)
        == Prepend(data, DecodeLines(lines[i..], t, target, hostLittle))
    {
      var ln := Strip(lines[i]);
      var v := HexToInt(ln, t, target, hostLittle);
      DecodeLinesStep(lines, i, t, target, hostLittle);
      if v.Err? {
        return Err(v.error);
      }
      DecodeAccumulate(lines, k, i, data, v.value, t, target, hostLittle);
      data := data + [v.value];
      i := i + 1;
    }
    assert lines[|lines|..] == [];
    assert data + [] == data;
    r := Ok(data);
  }

  /** Every entry of a LUT array of dtype `t` holds a value of `t`. */
  predicate AllInRange(t: NpType, vals: seq<int>)
    requires IsIntType(t)
  {
    forall k :: 0 <= k < |vals| ==> InRange(t, vals[k])
  }

  /** The hex text `int_to_hex` gives a numpy integer of type `t`. */
  function EntryHex(t: NpType, v: int, target: ByteOrder, hostLittle: bool): (h: string)
    requires IsIntType(t) && InRange(t, v)
    ensures h != "" && forall k :: 0 <= k < |h| ==> IsLowerHexChar(h[k])
    ensures IntToHex(NpInteger(t, v), target, hostLittle) == Ok(h)
  {
    ToHex(ConvertToByteOrder(t, v, target, hostLittle))
  }

  /**
   * The lines Python yields, after the header, for the text
   * `write_lut_to_hex` writes with `int_to_hex`: one hex entry per line,
   * each but the last ending in '\n'.
   */
  function WrittenDataLines(t: NpType, vals: seq<int>, target: ByteOrder, hostLittle: bool): (r: seq<string>)
    requires IsIntType(t) && AllInRange(t, vals)
  {
    seq(|vals|, i requires 0 <= i < |vals| =>
      var h := EntryHex(t, vals[i], target, hostLittle);
      if i == |vals| - 1 then h else h + "\n")
  }

  lemma EntryHexDecodes(t: NpType, v: int, target: ByteOrder, hostLittle: bool)
    requires IsIntType(t) && InRange(t, v)
    ensures HexToInt(EntryHex(t, v, target, hostLittle), t, target, hostLittle) == Ok(v)
  {
    NpIntegerRoundTrip(t, v, target, hostLittle);
    assert IntToHex(NpInteger(t, v), target, hostLittle) == Ok(EntryHex(t, v, target, hostLittle));
  }

  /** A line holding hex text, with or without its '\n', decodes like the text. */
  lemma DecodeStrippedLine(h: string, ln: string, t: NpType, v: int, target: ByteOrder, hostLittle: bool)
    requires IsIntType(t)
    requires h != "" && forall k :: 0 <= k < |h| ==> IsLowerHexChar(h[k])
    requires HexToInt(h, t, target, hostLittle) == Ok(v)
    requires ln == h || ln == h + "\n"
    ensures HexToInt(Strip(ln), t, target, hostLittle) == Ok(v)
  {
    StripHex(h);
  }

  lemma StripHex(h: string)
    requires h != "" && forall k :: 0 <= k < |h| ==> IsLowerHexChar(h[k])
    ensures Strip(h) == h && Strip(h + "\n") == h
  {
    var hn := h + "\n";
    assert h[0] !in Whitespace && h[|h| - 1] !in Whitespace;
    assert hn[0] == h[0];
    assert LStripSet(h, Whitespace) == h;
    assert LStripSet(hn, Whitespace) == hn;
    assert hn[|hn| - 1] in Whitespace;
    assert hn[..|hn| - 1] == h;
    assert RStripSet(h, Whitespace) == h;
    assert RStripSet(hn, Whitespace) == RStripSet(h, Whitespace);
  }

  /** One step of `DecodeLines`. */
  lemma DecodeLinesStep(lines: seq<string>, i: nat, t: NpType, target: ByteOrder, hostLittle: bool)
    requires IsIntType(t) && i < |lines|
    ensures DecodeLines(lines[i..], t, target, hostLittle)
      == match HexToInt(Strip(lines[i]), t, target, hostLittle)
         case Err(e) => Err(e)
         case Ok(v) => Prepend([v], DecodeLines(lines[i + 1..], t, target, hostLittle))
  {
    assert lines[i..][0] == lines[i];
    assert lines[i..][1..] == lines[i + 1..];
  }

  lemma PrependNothing(rest: Result<seq<int>>)
    ensures Prepend([], rest) == rest
  {
    if rest.Ok? {
      assert [] + rest.value == rest.value;
    }
  }

  /** The loop of `read_lut_from_hex` keeps its invariant when line `i` decodes to `v`. */
  lemma DecodeAccumulate(lines: seq<string>, k: nat, i: nat, data: seq<int>, v: int,
                         t: NpType, target: ByteOrder, hostLittle: bool)
    requires IsIntType(t) && k <= i < |lines|
    requires DecodeLines(lines[k..], t, target, hostLittle) == Prepend(data, DecodeLines(lines[i..], t, target, hostLittle))
    requires HexToInt(Strip(lines[i]), t, target, hostLittle) == Ok(v)
    ensures DecodeLines(lines[k..], t, target, hostLittle) == Prepend(data + [v], DecodeLines(lines[i + 1..], t, target, hostLittle))
  {
    DecodeLinesStep(lines, i, t, target, hostLittle);
    PrependPrepend(data, v, DecodeLines(lines[i + 1..], t, target, hostLittle));
  }

  lemma PrependPrepend(data: seq<int>, v: int, rest: Result<seq<int>>)
    ensures Prepend(data, Prepend([v], rest)) == Prepend(data + [v], rest)
  {
    if rest.Ok? {
      assert data + ([v] + rest.value) == (data + [v]) + rest.value;
    }
  }

  /** Decoding succeeds on a list of lines when it succeeds on every line. */
  lemma {:induction false} DecodeAll(lines: seq<string>, vals: seq<int>, t: NpType, target: ByteOrder, hostLittle: bool)
    requires IsIntType(t) && |lines| == |vals|
    requires forall k :: 0 <= k < |lines| ==> DecodeLine(lines[k], t, target, hostLittle) == Ok(vals[k])
    ensures DecodeLines(lines, t, target, hostLittle) == Ok(vals)
  {
    if lines != [] {
      DecodeAll(lines[1..], vals[1..], t, target, hostLittle);
      assert [vals[0]] + vals[1..] == vals;
    }
  }

  lemma DecodeWritten(t: NpType, vals: seq<int>, target: ByteOrder, hostLittle: bool)
    requires IsIntType(t) && AllInRange(t, vals)
    ensures DecodeLines(WrittenDataLines(t, vals, target, hostLittle), t, target, hostLittle) == Ok(vals)
  {
    var lines := WrittenDataLines(t, vals, target, hostLittle);
    forall k | 0 <= k < |lines|
      ensures DecodeLine(lines[k], t, target, hostLittle) == Ok(vals[k])
    {
      var h := EntryHex(t, vals[k], target, hostLittle);
      EntryHexDecodes(t, vals[k], target, hostLittle);
      DecodeStrippedLine(h, lines[k], t, vals[k], target, hostLittle);
    }
    DecodeAll(lines, vals, t, target, hostLittle);
  }

  /**
   * Reading a LUT file written with the same integer type and byte order
   * gives back the entries, whatever comment header precedes them.
   */
  lemma ReadAfterWrite(dir: string, fileName: string, header: seq<string>,
                       t: NpType, vals: seq<int>, target: ByteOrder, hostLittle: bool)
    requires ValidFileName(fileName).Ok?
    requires forall k :: 0 <= k < |header| ==> IsHeaderLine(header[k])
    requires IsIntType(t) && AllInRange(t, vals)
    ensures ReadLutSpec(dir, fileName, header + WrittenDataLines(t, vals, target, hostLittle), t, target, hostLittle) == Ok(vals)
  {
    var data := WrittenDataLines(t, vals, target, hostLittle);
    WrittenDataNotHeader(t, vals, target, hostLittle);
    HeaderThenData(header, data);
    DecodeWritten(t, vals, target, hostLittle);
  }

  lemma WrittenDataNotHeader(t: NpType, vals: seq<int>, target: ByteOrder, hostLittle: bool)
    requires IsIntType(t) && AllInRange(t, vals)
    ensures var data := WrittenDataLines(t, vals, target, hostLittle);
      data == [] || !IsHeaderLine(data[0])
  {
    var data := WrittenDataLines(t, vals, target, hostLittle);
    if data != [] {
      var h := EntryHex(t, vals[0], target, hostLittle);
      assert data[0] == h || data[0] == h + "\n";
      assert data[0][0] == h[0] && IsLowerHexChar(h[0]);
    }
  }

  lemma {:induction false} HeaderThenData(header: seq<string>, data: seq<string>)
    requires forall k :: 0 <= k < |header| ==> IsHeaderLine(header[k])
    requires data == [] || !IsHeaderLine(data[0])
    ensures DropHeader(header + data) == data
  {
    if header != [] {
      assert (header + data)[1..] == header[1..] + data;
      HeaderThenData(header[1..], data);
    } else {
      assert header + data == data;
    }
  }
}
