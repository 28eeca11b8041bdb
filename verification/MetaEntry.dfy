/** The record of one archive entry, and its attribute byte. */
module MetaEntry {
  import opened Bytes
  import opened LittleEndian
  import opened Streams

  const TYPE_FILE: nat := 0
  const TYPE_DIR: nat := 1
  const TYPE_SYM: nat := 2
  const TYPE_SUBDIR: nat := 3

  const COMP_STORED: nat := 0
  const COMP_COMPRESSED: nat := 1

  /** The type: the two low bits. */
  function TypeOf(a: byte): (t: nat)
    ensures t < 4
  {
    a % 4
  }

  /** The compression: the next two bits. */
  function CompOf(a: byte): (c: nat)
    ensures c < 4
  {
    a / 4 % 4
  }

  function SetType(a: byte, t: nat): (r: byte)
    requires t < 4
    ensures TypeOf(r) == t && CompOf(r) == CompOf(a) && r / 16 == a / 16
  {
    a - a % 4 + t
  }

  function SetComp(a: byte, c: nat): (r: byte)
    requires c < 4
    ensures CompOf(r) == c && TypeOf(r) == TypeOf(a) && r / 16 == a / 16
  {
    a / 16 * 16 + 4 * c + a % 4
  }

  /** Attribute bytes below 16 in numbers. */
  lemma SmallAttribute(a: byte)
    requires a < 16
    ensures TypeOf(a) == a % 4 && CompOf(a) == a / 4
    ensures SetComp(a, COMP_STORED) == a % 4 && SetComp(a, COMP_COMPRESSED) == 4 + a % 4
    ensures SetType(a, TYPE_DIR) == a - a % 4 + 1 && SetType(a, TYPE_SUBDIR) == a - a % 4 + 3
  {
    SmallQuotients(a);
  }

  lemma SmallQuotients(a: int)
    requires 0 <= a < 16
    ensures a / 16 == 0 && a / 4 % 4 == a / 4
  {
  }

  class Entry {
    var attributes: byte
    var name: seq<byte>
    var dataSize: u64
    var parentIndex: u32
    var crc32: bv32

    constructor (a: byte, n: seq<byte>)
      ensures attributes == a && name == n && dataSize == 0 && parentIndex == 0 && crc32 == 0
    {
      attributes, name, dataSize, parentIndex, crc32 := a, n, 0, 0, 0;
    }
  }

  /** The size field of a file entry; refused for other types. */
  method WriteFileEntry(f: Stream, me: Entry) returns (ok: bool)
    requires f.pos <= |f.data|
    modifies f
    ensures ok == (TypeOf(me.attributes) == TYPE_FILE)
    ensures ok ==> f.data == Overwritten(old(f.data), old(f.pos), LE(me.dataSize, 8)) && f.pos == old(f.pos) + 8
    ensures !ok ==> f.data == old(f.data)
  {
    if TypeOf(me.attributes) != TYPE_FILE {
      return false;
    }
    f.Write(LE(me.dataSize, 8));
    ok := true;
  }
}
