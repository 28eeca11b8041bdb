/** What the checksum of an entry covers: which changes it always shows. */
module Coverage {
  import opened Bytes
  import opened LittleEndian
  import opened MetaEntry
  import opened ChunkHeader
  import opened ChunkCodec
  import opened FileCodec
  import opened Crc32c
  import opened CrcPeriod
  import opened CrcChecks
  import opened EntryRecords

  // ----- chunk headers -------------------------------------------------------------------------------------------

  /** Where the header of chunk k lies among the bytes checked, whatever that header is. */
  lemma {:induction false} CheckedSplit(x: seq<byte>, cs: seq<Packed>, k: nat, c: Packed) returns (t: seq<byte>)
    requires k < |cs|
    ensures Checked(x, cs) == Checked(x, cs[..k]) + InMemory(cs[k].header) + t
    ensures Checked(x, cs[k := c]) == Checked(x, cs[..k]) + InMemory(c.header) + t
    decreases |cs|
  {
    hide InMemory, Piece;
    var n := |cs| - 1;
    var front, last, ds := cs[..n], cs[n], cs[k := c];
    assert cs == front + [last];
    CheckedNext(x, front, last);
    if k == n {
      t := Piece(x, n);
      assert ds == front + [c] && front == cs[..k];
      CheckedNext(x, front, c);
    } else {
      var u := CheckedSplit(x, front, k, c);
      t := u + InMemory(last.header) + Piece(x, n);
      assert ds == front[k := c] + [last] && front[..k] == cs[..k];
      CheckedNext(x, front[k := c], last);
      Regroup(Checked(x, cs[..k]), InMemory(cs[k].header), u, InMemory(last.header), Piece(x, n));
      Regroup(Checked(x, cs[..k]), InMemory(c.header), u, InMemory(last.header), Piece(x, n));
    }
  }

  lemma Regroup(a: seq<byte>, b: seq<byte>, u: seq<byte>, v: seq<byte>, w: seq<byte>)
    ensures a + b + u + v + w == a + b + (u + v + w)
  {
  }

  /** A chunk header changed inside four adjacent bytes: the checksum of the file changes. */
  lemma HeaderMatters(x: seq<byte>, cs: seq<Packed>, k: nat, c: Packed, i: nat, previous: bv32)
    requires k < |cs| && WellFormed(cs[k].header) && WellFormed(c.header) && i + 4 <= MEMORY_HEADER_SIZE
    requires InMemory(c.header)[..i] == InMemory(cs[k].header)[..i]
    requires InMemory(c.header)[i + 4..] == InMemory(cs[k].header)[i + 4..]
    requires Crc(Checked(x, cs[k := c]), previous) == Crc(Checked(x, cs), previous)
    ensures c.header == cs[k].header
  {
    hide InMemory, Checked, Crc;
    HeaderSizes(cs[k].header);
    HeaderSizes(c.header);
    var t := CheckedSplit(x, cs, k, c);
    var g, h, p := InMemory(c.header), InMemory(cs[k].header), Checked(x, cs[..k]);
    Window(p, g, i, t);
    Window(p, h, i, t);
    FourBytesMatter(p + h[..i], g[i..i + 4], h[i..i + 4], h[i + 4..] + t, previous);
    assert g == g[..i] + g[i..i + 4] + g[i + 4..] && h == h[..i] + h[i..i + 4] + h[i + 4..];
    MemoryInjective(c.header, cs[k].header);
  }

  lemma Window(p: seq<byte>, s: seq<byte>, i: nat, t: seq<byte>)
    requires i + 4 <= |s|
    ensures p + s + t == p + s[..i] + s[i..i + 4] + (s[i + 4..] + t)
  {
    assert s == s[..i] + s[i..i + 4] + s[i + 4..];
  }

  /** In particular every other primary index has another checksum. */
  lemma IndexMatters(x: seq<byte>, cs: seq<Packed>, k: nat, index: u32, previous: bv32)
    requires k < |cs| && WellFormed(cs[k].header) && index != cs[k].header.primaryIndex
    ensures Crc(Checked(x, cs[k := cs[k].(header := cs[k].header.(primaryIndex := index))]), previous)
            != Crc(Checked(x, cs), previous)
  {
    hide Crc, Checked, LE;
    var c := cs[k].(header := cs[k].header.(primaryIndex := index));
    SameBehindIndex(cs[k].header, c.header);
    if Crc(Checked(x, cs[k := c]), previous) == Crc(Checked(x, cs), previous) {
      HeaderMatters(x, cs, k, c, 0, previous);
    }
  }

  lemma SameBehindIndex(g: Header, h: Header)
    requires WellFormed(g) && h == g.(primaryIndex := h.primaryIndex)
    ensures InMemory(h)[..0] == InMemory(g)[..0] && InMemory(h)[4..] == InMemory(g)[4..]
  {
    hide LE;
  }

  // ----- the front of an entry -----------------------------------------------------------------------------------

  lemma PathHeaderLayout(a: byte, path: seq<byte>)
    requires |path| <= 65535
    ensures var s := PathHeader(a, path); s[0] == a && FromLE(s[1..3]) == |path| && s[3..] == path
  {
    hide LE, FromLE;
    Widths();
    ReadBack(|path|, 2);
    assert PathHeader(a, path)[1..3] == LE(|path|, 2);
  }

  /** Attributes and path are given by the bytes checked first. */
  lemma PathHeaderInjective(a: byte, p: seq<byte>, b: byte, q: seq<byte>)
    requires |p| <= 65535 && |q| <= 65535 && PathHeader(a, p) == PathHeader(b, q)
    ensures a == b && p == q
  {
    hide PathHeader;
    PathHeaderLayout(a, p);
    PathHeaderLayout(b, q);
  }

  /** Neither does anything that follows hide a difference: equal bytes checked, equal attributes and paths. */
  lemma FrontUnambiguous(r: Record, s: Record)
    requires |r.path| <= 65535 && |s.path| <= 65535
    requires PathHeader(r.attributes, r.path) + CheckedBody(r) == PathHeader(s.attributes, s.path) + CheckedBody(s)
    ensures r.attributes == s.attributes && r.path == s.path && CheckedBody(r) == CheckedBody(s)
  {
    hide CheckedBody;
    var p, q := PathHeader(r.attributes, r.path), PathHeader(s.attributes, s.path);
    var all := p + CheckedBody(r);
    PathHeaderLayout(r.attributes, r.path);
    PathHeaderLayout(s.attributes, s.path);
    assert all[0] == p[0] == q[0];
    assert all[1..3] == p[1..3] == q[1..3];
    assert |p| == |q|;
    assert all[..|p|] == p == q && all[|p|..] == CheckedBody(r) == CheckedBody(s);
  }

  // ----- changes the checksum of an entry shows ------------------------------------------------------------------

  /** The same entry with other attributes; a directory keeps its type, because its type says what is checked. */
  ghost predicate OnlyAttributesDiffer(r: Record, s: Record)
  {
    && s == r.(attributes := s.attributes) && r.attributes != s.attributes
    && (r.DirRecord? ==> TypeOf(r.attributes) == TypeOf(s.attributes))
  }

  lemma AttributesMatter(r: Record, s: Record)
    requires OnlyAttributesDiffer(r, s)
    ensures Checksum(s) != Checksum(r)
  {
    hide Crc, LE, Checked, Written;
    var t := LE(|r.path|, 2) + r.path + CheckedBody(r);
    assert PathHeader(r.attributes, r.path) + CheckedBody(r) == [] + [r.attributes] + t;
    assert PathHeader(s.attributes, s.path) + CheckedBody(s) == [] + [s.attributes] + t;
    if Checksum(r) == Checksum(s) { OneByteMatters([], r.attributes, s.attributes, t, 0); }
  }

  /** One byte of the path. */
  lemma PathMatters(r: Record, i: nat, b: byte)
    requires i < |r.path| && b != r.path[i]
    ensures Checksum(r.(path := r.path[i := b])) != Checksum(r)
  {
    hide Crc, LE, Checked, Written, CheckedBody;
    var s := r.(path := r.path[i := b]);
    var p, t := [r.attributes] + LE(|r.path|, 2) + r.path[..i], r.path[i + 1..] + CheckedBody(r);
    SameBody(r, s);
    OneInside([r.attributes] + LE(|r.path|, 2), r.path, i, CheckedBody(r));
    OneInside([r.attributes] + LE(|r.path|, 2), s.path, i, CheckedBody(r));
    assert s.path[..i] == r.path[..i] && s.path[i + 1..] == r.path[i + 1..];
    if Checksum(r) == Checksum(s) { OneByteMatters(p, r.path[i], s.path[i], t, 0); }
  }

  lemma SameBody(r: Record, s: Record)
    requires s == r.(path := s.path)
    ensures CheckedBody(s) == CheckedBody(r)
  {
    hide LE, Checked, Written;
  }

  lemma OneInside(front: seq<byte>, s: seq<byte>, i: nat, tail: seq<byte>)
    requires i < |s|
    ensures front + s + tail == front + s[..i] + [s[i]] + (s[i + 1..] + tail)
  {
    assert s == s[..i] + [s[i]] + s[i + 1..];
  }

  /** The parent index of a sub-directory. */
  lemma ParentMatters(r: Record, parent: u32)
    requires r.DirRecord? && TypeOf(r.attributes) == TYPE_SUBDIR && parent != r.parent
    ensures Checksum(r.(parent := parent)) != Checksum(r)
  {
    hide Crc, LE, FromLE, PathHeader;
    var p := PathHeader(r.attributes, r.path);
    assert forall b: seq<byte> :: p + b == p + b + [];
    FieldBack(r.parent);
    FieldBack(parent);
    if Checksum(r.(parent := parent)) == Checksum(r) { FourBytesMatter(p, LE(r.parent, 4), LE(parent, 4), [], 0); }
  }

  /** One byte of the contents of a file stored as it is. */
  lemma ContentMatters(r: Record, i: nat, b: byte)
    requires r.StoredRecord? && i < |r.content| && b != r.content[i]
    ensures Checksum(StoredRecord(r.attributes, r.name, r.path, r.content[i := b])) != Checksum(r)
  {
    hide Crc, LE, PathHeader;
    var s := StoredRecord(r.attributes, r.name, r.path, r.content[i := b]);
    var h, size := PathHeader(r.attributes, r.path), LE(|r.content|, 8);
    assert h + (size + r.content) == h + size + r.content + [];
    assert h + (size + s.content) == h + size + s.content + [];
    OneInside(h + size, r.content, i, []);
    OneInside(h + size, s.content, i, []);
    assert s.content[..i] == r.content[..i] && s.content[i + 1..] == r.content[i + 1..];
    if Checksum(r) == Checksum(s) {
      OneByteMatters(h + size + r.content[..i], r.content[i], s.content[i], r.content[i + 1..] + [], 0);
    }
  }

  /** The primary index of a chunk of a compressed file. */
  lemma EntryIndexMatters(r: Record, k: nat, index: u32)
    requires r.PackedRecord? && k < |r.chunks| && WellFormed(r.chunks[k].header)
    requires index != r.chunks[k].header.primaryIndex
    ensures var c := r.chunks[k].(header := r.chunks[k].header.(primaryIndex := index));
            Checksum(r.(chunks := r.chunks[k := c])) != Checksum(r)
  {
    hide Crc, LE, PathHeader, Checked, Written;
    var cs, c := r.chunks, r.chunks[k].(header := r.chunks[k].header.(primaryIndex := index));
    SameWritten(cs, k, c);
    var front := PathHeader(r.attributes, r.path) + LE(|Written(cs)|, 8);
    assert PathHeader(r.attributes, r.path) + (LE(|Written(cs)|, 8) + Checked(r.content, cs)) == front + Checked(r.content, cs);
    assert PathHeader(r.attributes, r.path) + (LE(|Written(cs)|, 8) + Checked(r.content, cs[k := c]))
        == front + Checked(r.content, cs[k := c]);
    CrcChain(front, Checked(r.content, cs), 0);
    CrcChain(front, Checked(r.content, cs[k := c]), 0);
    IndexMatters(r.content, cs, k, index, Crc(front, 0));
  }

  lemma {:induction false} SameWritten(cs: seq<Packed>, k: nat, c: Packed)
    requires k < |cs| && |c.header.lengths| == |cs[k].header.lengths| && |c.payload| == |cs[k].payload|
    ensures |Written(cs[k := c])| == |Written(cs)|
    decreases |cs|
  {
    hide OnDisk;
    var n := |cs| - 1;
    var front, last := cs[..n], cs[n];
    assert cs == front + [last];
    WrittenNext(front, last);
    if k == n {
      assert cs[k := c] == front + [c];
      WrittenNext(front, c);
    } else {
      assert cs[k := c] == front[k := c] + [last];
      SameWritten(front, k, c);
      WrittenNext(front[k := c], last);
    }
  }
}
