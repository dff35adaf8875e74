/** Results of operations that may throw, and optional values. */
module Wrappers {
  datatype Option<+T> = None | Some(value: T)

  /** The exceptions the program can raise; none of them is caught. */
  datatype Error =
    | ReadPastEnd
    | UnparsableDatagram
    | ZeroFragments
    | IncompatibleDatagram
    | NoSuchFrame
    | IncompleteFrame
    | DecodeBufferFull
    | PrecisionLost
    | AlreadyUnacked
    | BadMtu
    | AlreadyRegistered
    | NotRegistered
    | EndOfVideo

  datatype Result<+T> = Ok(value: T) | Throw(error: Error) {
    predicate IsFailure() {
      Throw?
    }

    function PropagateFailure<U>(): Result<U>
      requires Throw?
    {
      Throw(error)
    }

    function Extract(): T
      requires Ok?
    {
      value
    }
  }
}

/** Big-endian numbers of a given width, and a parser that moves a cursor over bytes. */
module Wire {
  import opened Wrappers

  type uint8 = x: int | 0 <= x < 0x100
  type byte = uint8
  type uint16 = x: int | 0 <= x < 0x1_0000
  type uint32 = x: int | 0 <= x < 0x1_0000_0000
  type uint64 = x: int | 0 <= x < 0x1_0000_0000_0000_0000

  function Pow256(width: nat): (p: nat)
    ensures p > 0
  {
    if width == 0 then 1 else 256 * Pow256(width - 1)
  }

  lemma Widths()
    ensures Pow256(0) == 1 && Pow256(3) == 0x100_0000
    ensures Pow256(5) == 0x100_0000_0000 && Pow256(6) == 0x1_0000_0000_0000 && Pow256(7) == 0x100_0000_0000_0000
    ensures Pow256(1) == 0x100 && Pow256(2) == 0x1_0000
    ensures Pow256(4) == 0x1_0000_0000 && Pow256(8) == 0x1_0000_0000_0000_0000
  {
    assert Pow256(2) == 0x1_0000;
    assert Pow256(4) == 256 * 256 * Pow256(2);
    assert Pow256(6) == 256 * 256 * Pow256(4);
    assert Pow256(8) == 256 * 256 * Pow256(6);
  }

  /** Most significant byte first. */
  function PutNumber(n: nat, width: nat): (b: seq<byte>)
    ensures |b| == width
  {
    if width == 0 then [] else PutNumber(n / 256, width - 1) + [n % 256]
  }

  function GetNumber(b: seq<byte>): (n: nat)
    ensures n < Pow256(|b|)
  {
    if b == [] then 0 else GetNumber(b[..|b| - 1]) * 256 + b[|b| - 1]
  }

  lemma Digits(n: nat, p: nat)
    requires n < 256 * p
    ensures n / 256 < p && n / 256 * 256 + n % 256 == n
  {
  }

  lemma {:induction false} GetPut(n: nat, width: nat)
    requires n < Pow256(width)
    ensures GetNumber(PutNumber(n, width)) == n
  {
    if width > 0 {
      var b := PutNumber(n, width);
      Digits(n, Pow256(width - 1));
      GetPut(n / 256, width - 1);
      assert b[..width - 1] == PutNumber(n / 256, width - 1);
    }
  }

  lemma {:induction false} PutGet(b: seq<byte>)
    ensures PutNumber(GetNumber(b), |b|) == b
  {
    if b != [] {
      var front := b[..|b| - 1];
      PutGet(front);
      assert GetNumber(b) / 256 == GetNumber(front);
      assert GetNumber(b) % 256 == b[|b| - 1];
      assert b == front + [b[|b| - 1]];
    }
  }

  lemma MulMonotonic(x: nat, y: nat, d: nat)
    requires x <= y
    ensures x * d <= y * d
  {
  }

  lemma MulOrder(x: nat, y: nat, d: nat)
    requires d > 0
    ensures x * d < y * d <==> x < y
  {
    if x < y {
      MulMonotonic(x + 1, y, d);
    } else {
      MulMonotonic(y, x, d);
    }
  }

  lemma QuotientIs(n: nat, d: nat, q: nat)
    requires d > 0 && q * d <= n < (q + 1) * d
    ensures n / d == q
  {
    assert (n / d) * d <= n < (n / d + 1) * d;
    MulOrder(q, n / d + 1, d);
    MulOrder(n / d, q + 1, d);
  }

  lemma DivideTwice(n: nat, d: nat)
    requires d > 0
    ensures n / 256 / d == n / (256 * d)
  {
    var q := n / 256 / d;
    assert q * d <= n / 256 < (q + 1) * d;
    assert q * (256 * d) == 256 * (q * d) && (q + 1) * (256 * d) == 256 * ((q + 1) * d);
    QuotientIs(n, 256 * d, q);
  }

  /** Most significant byte first: byte i counts how often the weight of its place goes into the
      number. */
  lemma {:induction false} PutNumberBytes(n: nat, width: nat, i: nat)
    requires i < width
    ensures PutNumber(n, width)[i] == n / Pow256(width - 1 - i) % 256
  {
    if i < width - 1 {
      PutNumberBytes(n / 256, width - 1, i);
      DivideTwice(n, Pow256(width - 2 - i));
    } else {
      assert Pow256(0) == 1 && n / 1 == n;
    }
  }

  /** The bytes of a number read are those its places have. */
  lemma GetNumberBytes(b: seq<byte>, i: nat)
    requires i < |b|
    ensures b[i] == GetNumber(b) / Pow256(|b| - 1 - i) % 256
  {
    PutGet(b);
    PutNumberBytes(GetNumber(b), |b|, i);
  }

  /** A number laid before other bytes is read back, and reading it leaves those bytes. */
  lemma ReadBack(n: nat, width: nat, rest: seq<byte>)
    requires n < Pow256(width)
    ensures var b := PutNumber(n, width) + rest;
            GetNumber(b[..width]) == n && b[width..] == rest
  {
    GetPut(n, width);
    assert (PutNumber(n, width) + rest)[..width] == PutNumber(n, width);
  }

  lemma Assoc<T>(p: seq<T>, q: seq<T>, r: seq<T>)
    ensures (p + q) + r == p + (q + r)
  {
  }

  lemma Middle<T>(p: seq<T>, q: seq<T>, r: seq<T>)
    ensures (p + (q + r))[|p|..|p| + |q|] == q
  {
  }

  /** Writing a number that was read gives back the bytes it was read from. */
  lemma WriteBack(b: seq<byte>, width: nat)
    requires width <= |b|
    ensures PutNumber(GetNumber(b[..width]), width) + b[width..] == b
  {
    PutGet(b[..width]);
  }

  // ---------- numbers at an offset ----------

  function Uint16At(b: seq<byte>, i: nat): uint16
    requires i + 2 <= |b|
  {
    Widths();
    GetNumber(b[i..i + 2])
  }

  function Uint32At(b: seq<byte>, i: nat): uint32
    requires i + 4 <= |b|
  {
    Widths();
    GetNumber(b[i..i + 4])
  }

  function Uint64At(b: seq<byte>, i: nat): uint64
    requires i + 8 <= |b|
  {
    Widths();
    GetNumber(b[i..i + 8])
  }

  /** A cursor over received bytes; a read that does not fit throws and leaves the cursor alone. */
  class WireParser {
    var str: seq<byte>

    constructor (binary: seq<byte>)
      ensures str == binary
    {
      str := binary;
    }

    method Read(width: nat) returns (r: Result<nat>)
      modifies this
      ensures |old(str)| < width ==> r == Throw(ReadPastEnd) && str == old(str)
      ensures |old(str)| >= width ==> r == Ok(GetNumber(old(str)[..width])) && str == old(str)[width..]
    {
      if width > |str| {
        return Throw(ReadPastEnd);
      }
      r := Ok(GetNumber(str[..width]));
      str := str[width..];
    }

    method ReadString(len: nat) returns (r: Result<seq<byte>>)
      modifies this
      ensures |old(str)| < len ==> r == Throw(ReadPastEnd) && str == old(str)
      ensures |old(str)| >= len ==> r == Ok(old(str)[..len]) && str == old(str)[len..]
    {
      if len > |str| {
        return Throw(ReadPastEnd);
      }
      r := Ok(str[..len]);
      str := str[len..];
    }

    method Skip(len: nat) returns (r: Result<()>)
      modifies this
      ensures |old(str)| < len ==> r == Throw(ReadPastEnd) && str == old(str)
      ensures |old(str)| >= len ==> r.Ok? && str == old(str)[len..]
    {
      if len > |str| {
        return Throw(ReadPastEnd);
      }
      r := Ok(());
      str := str[len..];
    }
  }
}
