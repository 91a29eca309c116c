/** boxed_array<uint8_t>: a heap array of bytes whose size is fixed when it is
    built, with element-wise equality and the hash that keys the server's name
    catalogue. */
module BoxedArrays {
  import opened Bytes

  const GOLDEN: bv64 := 0x9e3779b9

  /** One round of the hash: seed ^= h(e) + 0x9e3779b9 + (seed << 6) + (seed >> 2),
      all in 64-bit wrap-around arithmetic. */
  function Mix(seed: bv64, e: byte, elementHash: byte -> bv64): bv64
  {
    seed ^ (elementHash(e) + GOLDEN + (seed << 6) + (seed >> 2))
  }

  /** The seed after mixing in every element of `s`, first to last. */
  function Seeded(init: bv64, s: seq<byte>, elementHash: byte -> bv64): bv64
  {
    if s == [] then init
    else Mix(Seeded(init, s[..|s| - 1], elementHash), s[|s| - 1], elementHash)
  }

  /** std::hash<boxed_array>: the size, truncated to 64 bits, seeds the fold. */
  function BoxHash(s: seq<byte>, elementHash: byte -> bv64): bv64
  {
    Seeded((|s| % 0x1_0000_0000_0000_0000) as bv64, s, elementHash)
  }

  /** std::copy of `src` into the front of `dst`. */
  method CopyTo(src: seq<byte>, dst: array<byte>)
    requires |src| <= dst.Length
    modifies dst
    ensures dst[..|src|] == src
    ensures dst[|src|..] == old(dst[|src|..])
  {
    var i := 0;
    while i < |src|
      invariant 0 <= i <= |src|
      invariant dst[..i] == src[..i]
      invariant dst[|src|..] == old(dst[|src|..])
    {
      dst[i] := src[i];
      i := i + 1;
    }
  }

  class BoxedArray {
    var data: array<byte>
    var size: nat

    /** The size field always matches the storage it owns. */
    ghost predicate Valid()
      reads this
    {
      size == data.Length
    }

    /** The elements, in order. */
    function Contents(): seq<byte>
      reads this, data
    {
      data[..]
    }

    /** boxed_array(): no elements. */
    constructor Empty()
      ensures Valid() && fresh(data)
      ensures Contents() == []
    {
      data := new byte[0];
      size := 0;
    }

    /** boxed_array(size): `n` value-initialised, that is zero, bytes. */
    constructor Sized(n: nat)
      ensures Valid() && fresh(data)
      ensures Contents() == seq(n, _ => 0)
    {
      data := new byte[n](_ => 0);
      size := n;
    }

    /** boxed_array(begin, end): a copy of the range. */
    constructor FromRange(src: seq<byte>)
      ensures Valid() && fresh(data)
      ensures Contents() == src
    {
      var a := new byte[|src|];
      CopyTo(src, a);
      data := a;
      size := |src|;
    }

    /** boxed_array(const char*): the bytes of a NUL-terminated string up to,
        and not including, its first NUL. */
    constructor FromCString(str: seq<byte>)
      requires 0 in str
      ensures Valid() && fresh(data)
      ensures size == Find(str, 0, 0) && 0 !in Contents()
      ensures Contents() + [0] == str[..size + 1]
    {
      var len := Find(str, 0, 0);
      var a := new byte[len];
      CopyTo(str[..len], a);
      data := a;
      size := len;
      assert str[..len + 1] == str[..len] + [str[len]];
    }

    /** The copy constructor: equal contents in storage of its own. */
    constructor Copy(other: BoxedArray)
      requires other.Valid()
      ensures Valid() && fresh(data)
      ensures Contents() == other.Contents() && size == other.size
    {
      var a := new byte[other.size];
      CopyTo(other.data[..], a);
      data := a;
      size := other.size;
    }

    function Size(): (n: nat)
      reads this, data
      requires Valid()
      ensures n == |Contents()|
    {
      size
    }

    /** swap: the two arrays exchange their storage and their sizes. */
    method Swap(other: BoxedArray)
      modifies this, other
      ensures data == old(other.data) && size == old(other.size)
      ensures other.data == old(data) && other.size == old(size)
    {
      data, other.data := other.data, data;
      size, other.size := other.size, size;
    }

    /** operator==: equal sizes, then std::equal element by element. */
    method Equals(other: BoxedArray) returns (eq: bool)
      requires Valid() && other.Valid()
      ensures eq <==> Contents() == other.Contents()
    {
      if size != other.size {
        return false;
      }
      var i := 0;
      while i < size
        invariant 0 <= i <= size
        invariant data[..i] == other.data[..i]
      {
        if data[i] != other.data[i] {
          assert Contents()[i] != other.Contents()[i];
          return false;
        }
        i := i + 1;
      }
      assert data[..] == data[..i] && other.data[..] == other.data[..i];
      eq := true;
    }

    /** std::hash<boxed_array>, with the element hash as a parameter. */
    method Hash(elementHash: byte -> bv64) returns (seed: bv64)
      requires Valid()
      ensures seed == BoxHash(Contents(), elementHash)
    {
      var init := (size % 0x1_0000_0000_0000_0000) as bv64;
      seed := init;
      var i := 0;
      while i < size
        invariant 0 <= i <= size
        invariant seed == Seeded(init, data[..i], elementHash)
      {
        assert data[..i + 1][..i] == data[..i];
        seed := Mix(seed, data[i], elementHash);
        i := i + 1;
      }
      assert data[..] == data[..i];
    }
  }
}
