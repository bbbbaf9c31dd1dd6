/** Differences of 64-bit values in the narrowest of four widths. */
module Deltas {
  import opened Bytes
  import opened Records

  const I64_MIN := -0x8000_0000_0000_0000
  const I64_MAX := 0x7FFF_FFFF_FFFF_FFFF

  function ChangeFor(value: int): u32
  {
    if -128 <= value <= 127 then CHANGE_I8
    else if -32768 <= value <= 32767 then CHANGE_I16
    else if -2147483648 <= value <= 2147483647 then CHANGE_I32
    else CHANGE_I64
  }

  /** The low bytes of a value in two's complement. */
  function SignedBytes(value: int, width: nat): (r: seq<byte>)
    ensures |r| == width
  {
    WordBytes(value % Pow2(8 * width), width)
  }

  function SignedValue(bytes: seq<byte>): int
    requires bytes != []
  {
    var v, top: int := Word(bytes), Pow2(8 * |bytes| - 1);
    if v >= top then v - 2 * top else v
  }

  /** What enigmatic_log_diff writes after the header. */
  function DiffBody(objectType: u32, number: u32, value: int): Body
  {
    var change := ChangeFor(value);
    Change(objectType, number, change, SignedBytes(value, ChangeWidth(change)))
  }

  /** change_find: the value of a payload of the given width. */
  function ChangeValue(change: u32, payload: seq<byte>): Option<int>
  {
    if ChangeWidth(change) == 0 || |payload| != ChangeWidth(change) then None else Some(SignedValue(payload))
  }

  lemma SignedRoundTrip(value: int, width: nat, half: int)
    requires width > 0 && half == Pow2(8 * width - 1) && -half <= value < half
    ensures SignedBytes(value, width) != [] && SignedValue(SignedBytes(value, width)) == value
  {
    hide WordBytes, Word;
    var m: int := Pow2(8 * width);
    assert m == 2 * half;
    Residue(value, m);
    WordOfBytes(value % m, width);
  }

  lemma Residue(value: int, m: int)
    requires -m <= value < m && m > 0
    ensures value % m == if value < 0 then value + m else value
  {
    assert (value + m) % m == value % m;
  }

  /** Every difference a client could need survives the choice of width. */
  lemma DiffRoundTrip(objectType: u32, number: u32, value: int)
    requires I64_MIN <= value <= I64_MAX
    ensures var b := DiffBody(objectType, number, value);
            ChangeValue(b.change, b.payload) == Some(value)
  {
    hide SignedBytes, SignedValue;
    Pow2Values();
    assert Pow2(7) == 128 && Pow2(15) == 32768 && Pow2(31) == 2147483648 && Pow2(63) == 0x8000_0000_0000_0000;
    hide Pow2;
    match ChangeWidth(ChangeFor(value))
    case 1 => SignedRoundTrip(value, 1, 128);
    case 2 => SignedRoundTrip(value, 2, 32768);
    case 4 => SignedRoundTrip(value, 4, 2147483648);
    case _ => SignedRoundTrip(value, 8, 0x8000_0000_0000_0000);
  }

  lemma DiffWellFormed(objectType: u32, number: u32, value: int)
    requires IsPlainField(objectType) || IsBatteryField(objectType) || IsProcessField(objectType)
    ensures WellFormed(DiffBody(objectType, number, value))
  {
  }

  /** The value fits that many bytes in two's complement. */
  predicate Fits(value: int, width: nat)
    requires width > 0
  {
    var half: int := Pow2(8 * width - 1);
    -half <= value < half
  }

  lemma FitsIs(value: int)
    ensures Fits(value, 1) <==> -128 <= value <= 127
    ensures Fits(value, 2) <==> -32768 <= value <= 32767
    ensures Fits(value, 4) <==> -2147483648 <= value <= 2147483647
    ensures Fits(value, 8) <==> I64_MIN <= value <= I64_MAX
  {
    Pow2Values();
    assert Pow2(7) == 128 && Pow2(15) == 32768 && Pow2(31) == 2147483648 && Pow2(63) == 0x8000_0000_0000_0000;
    hide Pow2;
  }

  /** A difference is written in the least of 1, 2, 4 and 8 bytes that hold it. */
  lemma Narrowest(value: int)
    requires I64_MIN <= value <= I64_MAX
    ensures ChangeWidth(ChangeFor(value)) in {1, 2, 4, 8} && Fits(value, ChangeWidth(ChangeFor(value)))
    ensures forall w :: w in {1, 2, 4, 8} && w < ChangeWidth(ChangeFor(value)) ==> !Fits(value, w)
  {
    hide Fits;
    FitsIs(value);
  }
}
