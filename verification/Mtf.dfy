/** Move-to-front coding with a table of all 256 symbols. */
module Mtf {
  import opened Bytes

  // ----- the table -----------------------------------------------------------------------------------------------

  /** Every symbol stands in the table exactly once. */
  predicate IsTable(t: seq<byte>)
  {
    && |t| == ALPHABET_SIZE
    && (forall s: byte :: s in t)
    && (forall i, j :: 0 <= i < j < |t| ==> t[i] != t[j])
  }

  function InitialTable(): (t: seq<byte>)
    ensures |t| == ALPHABET_SIZE && forall i :: 0 <= i < ALPHABET_SIZE ==> t[i] == i
  {
    seq(ALPHABET_SIZE, i requires 0 <= i < ALPHABET_SIZE => i)
  }

  lemma InitialIsTable()
    ensures IsTable(InitialTable())
  {
    forall s: byte
      ensures s in InitialTable()
    {
      assert InitialTable()[s] == s;
    }
  }

  /** The first place at or after k that holds s. */
  function PositionFrom(t: seq<byte>, s: byte, k: nat): (p: nat)
    requires k <= |t| && s in t[k..]
    ensures k <= p < |t| && t[p] == s && s !in t[k..p]
    decreases |t| - k
  {
    if t[k] == s then k else
      assert t[k..] == [t[k]] + t[k + 1..];
      PositionFrom(t, s, k + 1)
  }

  function Position(t: seq<byte>, s: byte): (p: byte)
    requires IsTable(t)
    ensures t[p] == s
  {
    assert t[0..] == t;
    PositionFrom(t, s, 0)
  }

  lemma PositionUnique(t: seq<byte>, p: byte)
    requires IsTable(t)
    ensures Position(t, t[p]) == p
  {
  }

  function MoveToFront(t: seq<byte>, p: nat): (r: seq<byte>)
    requires p < |t|
    ensures |r| == |t|
    ensures r[0] == t[p]
    ensures forall i :: 1 <= i <= p ==> r[i] == t[i - 1]
    ensures forall i :: p < i < |t| ==> r[i] == t[i]
  {
    [t[p]] + t[..p] + t[p + 1..]
  }

  lemma MovedIsTable(t: seq<byte>, p: nat)
    requires IsTable(t) && p < |t|
    ensures IsTable(MoveToFront(t, p))
  {
    var r := MoveToFront(t, p);
    forall s: byte
      ensures s in r
    {
      var k := Position(t, s);
      assert s == r[if k < p then k + 1 else if k == p then 0 else k];
    }
    forall i, j | 0 <= i < j < |r|
      ensures r[i] != r[j]
    {
    }
  }

  /** The table after the symbol at p was used. */
  function Use(t: seq<byte>, p: byte): (r: seq<byte>)
    requires IsTable(t)
    ensures IsTable(r)
  {
    MovedIsTable(t, p);
    MoveToFront(t, p)
  }

  // ----- encoding and decoding -----------------------------------------------------------------------------------

  /** The table after encoding buf. */
  function TableAfter(buf: seq<byte>): (t: seq<byte>)
    ensures IsTable(t)
  {
    if buf == [] then
      InitialIsTable();
      InitialTable()
    else
      var t := TableAfter(buf[..|buf| - 1]);
      Use(t, Position(t, buf[|buf| - 1]))
  }

  function Encoded(buf: seq<byte>): (codes: seq<byte>)
    ensures |codes| == |buf|
  {
    if buf == [] then []
    else Encoded(buf[..|buf| - 1]) + [Position(TableAfter(buf[..|buf| - 1]), buf[|buf| - 1])]
  }

  /** The table after decoding codes. */
  function DecoderTable(codes: seq<byte>): (t: seq<byte>)
    ensures IsTable(t)
  {
    if codes == [] then
      InitialIsTable();
      InitialTable()
    else
      var t := DecoderTable(codes[..|codes| - 1]);
      Use(t, codes[|codes| - 1])
  }

  function Decoded(codes: seq<byte>): (buf: seq<byte>)
    ensures |buf| == |codes|
  {
    if codes == [] then []
    else Decoded(codes[..|codes| - 1]) + [DecoderTable(codes[..|codes| - 1])[codes[|codes| - 1]]]
  }

  lemma {:induction false} DecodeEncode(buf: seq<byte>)
    ensures DecoderTable(Encoded(buf)) == TableAfter(buf)
    ensures Decoded(Encoded(buf)) == buf
  {
    hide Use, Position, IsTable, InitialTable;
    if buf != [] {
      var front := buf[..|buf| - 1];
      DecodeEncode(front);
      assert Encoded(buf)[..|buf| - 1] == Encoded(front);
    }
  }

  lemma {:induction false} EncodeDecode(codes: seq<byte>)
    ensures TableAfter(Decoded(codes)) == DecoderTable(codes)
    ensures Encoded(Decoded(codes)) == codes
  {
    hide Use, Position, IsTable, InitialTable;
    if codes != [] {
      var front := codes[..|codes| - 1];
      EncodeDecode(front);
      PositionUnique(DecoderTable(front), codes[|codes| - 1]);
      assert Decoded(codes)[..|codes| - 1] == Decoded(front);
    }
  }

  // ----- what a code means ---------------------------------------------------------------------------------------

  /** The symbols in front of s. */
  function Ahead(t: seq<byte>, s: byte): set<byte>
    requires IsTable(t)
  {
    SymbolsOf(t[..Position(t, s)])
  }

  lemma {:induction false} DistinctCount(t: seq<byte>, k: nat)
    requires k <= |t| && forall i, j :: 0 <= i < j < |t| ==> t[i] != t[j]
    ensures |SymbolsOf(t[..k])| == k
  {
    if k > 0 {
      DistinctCount(t, k - 1);
      assert t[..k] == t[..k - 1] + [t[k - 1]];
      assert SymbolsOf(t[..k]) == SymbolsOf(t[..k - 1]) + {t[k - 1]};
    }
  }

  lemma AheadCount(t: seq<byte>, s: byte)
    requires IsTable(t)
    ensures |Ahead(t, s)| == Position(t, s)
  {
    DistinctCount(t, Position(t, s));
  }

  lemma AheadIsBefore(t: seq<byte>, s: byte, u: byte)
    requires IsTable(t)
    ensures u in Ahead(t, s) <==> Position(t, u) < Position(t, s)
  {
    PositionUnique(t, Position(t, u));
    if u in t[..Position(t, s)] {
      var k :| 0 <= k < Position(t, s) && t[k] == u;
      PositionUnique(t, k);
    }
  }

  lemma MovedPosition(t: seq<byte>, u: byte, s: byte)
    requires IsTable(t)
    ensures var p, q := Position(t, u), Position(t, s);
            Position(Use(t, p), s) == if q < p then q + 1 else if q == p then 0 else q
  {
    var p, q := Position(t, u), Position(t, s);
    PositionUnique(Use(t, p), if q < p then q + 1 else if q == p then 0 else q);
  }

  /** Using symbol u puts it in front of every other symbol. */
  lemma AheadAfterUse(t: seq<byte>, u: byte, s: byte)
    requires IsTable(t)
    ensures Ahead(Use(t, Position(t, u)), s) == if s == u then {} else Ahead(t, s) + {u}
  {
    hide Ahead, Position, Use;
    var r := Use(t, Position(t, u));
    forall v: byte
      ensures v in Ahead(r, s) <==> s != u && (v in Ahead(t, s) || v == u)
    {
      AheadIsBefore(r, s, v);
      AheadIsBefore(t, s, v);
      MovedPosition(t, u, s);
      MovedPosition(t, u, v);
      SamePosition(t, u, s);
      SamePosition(t, u, v);
    }
  }

  lemma SamePosition(t: seq<byte>, u: byte, s: byte)
    requires IsTable(t)
    ensures Position(t, u) == Position(t, s) <==> u == s
  {
  }

  /** The symbols smaller than s. */
  function Below(s: nat): (b: set<byte>)
    requires s <= ALPHABET_SIZE
    ensures forall u: byte :: u in b <==> u < s
    ensures |b| == s
  {
    if s == 0 then {} else Below(s - 1) + {s - 1}
  }

  /** The symbols of buf that are greater than s. */
  function Above(buf: seq<byte>, s: byte): set<byte>
  {
    set u: byte | u in buf && u > s
  }

  function SymbolsOf(buf: seq<byte>): set<byte>
  {
    set u: byte | u in buf
  }

  /** What stands in front of a symbol: what came after its last occurrence. */
  lemma {:induction false} AheadSinceLast(buf: seq<byte>, s: byte, k: nat)
    requires k < |buf| && buf[k] == s && s !in buf[k + 1..]
    ensures Ahead(TableAfter(buf), s) == SymbolsOf(buf[k + 1..])
  {
    hide Ahead, Use, Position;
    var front, u := buf[..|buf| - 1], buf[|buf| - 1];
    AheadAfterUse(TableAfter(front), u, s);
    if k == |buf| - 1 {
      assert buf[k + 1..] == [];
    } else {
      assert buf[k + 1..] == front[k + 1..] + [u];
      AheadSinceLast(front, s, k);
    }
  }

  /** In front of a symbol not used yet: all smaller symbols, and every symbol used. */
  lemma {:induction false} AheadUnused(buf: seq<byte>, s: byte)
    requires s !in buf
    ensures Ahead(TableAfter(buf), s) == SymbolsOf(buf) + Below(s)
  {
    hide Ahead, Use, Position, InitialTable;
    if buf == [] {
      AheadInitially(s);
    } else {
      var front, u := buf[..|buf| - 1], buf[|buf| - 1];
      AheadAfterUse(TableAfter(front), u, s);
      assert buf == front + [u];
      AheadUnused(front, s);
    }
  }

  lemma AheadInitially(s: byte)
    ensures IsTable(InitialTable()) && Ahead(InitialTable(), s) == Below(s)
  {
    hide Ahead;
    InitialIsTable();
    forall u: byte
      ensures u in Ahead(InitialTable(), s) <==> u < s
    {
      AheadIsBefore(InitialTable(), s, u);
      PositionUnique(InitialTable(), s);
      PositionUnique(InitialTable(), u);
    }
  }

  /** A repeated symbol encodes to the number of distinct symbols since its last occurrence. */
  lemma CodeOfRepeated(buf: seq<byte>, s: byte, k: nat)
    requires k < |buf| && buf[k] == s && s !in buf[k + 1..]
    ensures Encoded(buf + [s])[|buf|] == |SymbolsOf(buf[k + 1..])|
  {
    assert (buf + [s])[..|buf|] == buf;
    AheadSinceLast(buf, s, k);
    AheadCount(TableAfter(buf), s);
  }

  lemma SplitAtSymbol(buf: seq<byte>, s: byte)
    requires s !in buf
    ensures |SymbolsOf(buf) + Below(s)| == |Above(buf, s)| + s
  {
    assert SymbolsOf(buf) + Below(s) == Above(buf, s) + Below(s);
    assert Above(buf, s) !! Below(s);
  }

  /** A first occurrence of s encodes to s plus the number of distinct earlier symbols above s. */
  lemma CodeOfFirst(buf: seq<byte>, s: byte)
    requires s !in buf
    ensures Encoded(buf + [s])[|buf|] == s + |Above(buf, s)|
  {
    hide TableAfter, Ahead, Position;
    assert (buf + [s])[..|buf|] == buf;
    AheadUnused(buf, s);
    AheadCount(TableAfter(buf), s);
    SplitAtSymbol(buf, s);
  }

  // ----- the loops -----------------------------------------------------------------------------------------------

  method InitTable(table: array<byte>)
    requires table.Length == ALPHABET_SIZE
    modifies table
    ensures table[..] == InitialTable()
  {
    for i := 0 to ALPHABET_SIZE
      invariant forall k :: 0 <= k < i ==> table[k] == k
    {
      table[i] := i;
    }
  }

  /** Moves the symbol at the given position to the front. */
  method DecodeSymbol(table: array<byte>, position: byte)
    requires table.Length == ALPHABET_SIZE
    modifies table
    ensures table[..] == MoveToFront(old(table[..]), position)
  {
    var temp := table[position];
    var i := position;
    while i > 0
      invariant 0 <= i <= position
      invariant forall k :: 0 <= k < i ==> table[k] == old(table[k])
      invariant forall k :: i < k <= position ==> table[k] == old(table[k - 1])
      invariant forall k :: position < k < ALPHABET_SIZE ==> table[k] == old(table[k])
    {
      table[i] := table[i - 1];
      i := i - 1;
    }
    table[0] := temp;
  }

  /** Finds a symbol, moves it to the front and returns where it was. */
  method EncodeSymbol(table: array<byte>, symbol: byte) returns (position: byte)
    requires table.Length == ALPHABET_SIZE && IsTable(table[..])
    modifies table
    ensures position == Position(old(table[..]), symbol)
    ensures table[..] == MoveToFront(old(table[..]), position)
  {
    ghost var t := table[..];
    position := 0;
    while table[position] != symbol
      invariant position <= Position(t, symbol) && symbol !in t[..position]
      decreases Position(t, symbol) - position
    {
      position := position + 1;
    }
    PositionUnique(t, position);
    DecodeSymbol(table, position);
  }

  method Encode(buf: array<byte>, out: array<byte>)
    requires buf.Length == out.Length && buf != out
    modifies out
    ensures out[..] == Encoded(buf[..])
  {
    hide TableAfter;
    ghost var bytes := buf[..];
    var table := new byte[ALPHABET_SIZE];
    InitTable(table);
    TablesStart();
    for i := 0 to buf.Length
      invariant buf[..] == bytes && table[..] == TableAfter(bytes[..i]) && out[..i] == Encoded(bytes[..i])
    {
      assert bytes[..i + 1][..i] == bytes[..i];
      TableStep(bytes, i);
      out[i] := EncodeSymbol(table, buf[i]);
    }
    assert bytes[..buf.Length] == bytes && out[..buf.Length] == out[..];
  }

  lemma TablesStart()
    ensures TableAfter([]) == DecoderTable([]) == InitialTable()
  {
  }

  lemma TableStep(buf: seq<byte>, i: nat)
    requires i < |buf|
    ensures TableAfter(buf[..i + 1]) == MoveToFront(TableAfter(buf[..i]), Position(TableAfter(buf[..i]), buf[i]))
    ensures DecoderTable(buf[..i + 1]) == MoveToFront(DecoderTable(buf[..i]), buf[i])
  {
    assert buf[..i + 1][..i] == buf[..i];
  }

  method Decode(codes: array<byte>, out: array<byte>)
    requires codes.Length == out.Length && codes != out
    modifies out
    ensures out[..] == Decoded(codes[..])
  {
    hide DecoderTable;
    ghost var bytes := codes[..];
    var table := new byte[ALPHABET_SIZE];
    InitTable(table);
    TablesStart();
    for i := 0 to codes.Length
      invariant codes[..] == bytes && table[..] == DecoderTable(bytes[..i]) && out[..i] == Decoded(bytes[..i])
    {
      assert bytes[..i + 1][..i] == bytes[..i];
      TableStep(bytes, i);
      var position := codes[i];
      out[i] := table[position];
      DecodeSymbol(table, position);
    }
    assert bytes[..codes.Length] == bytes && out[..codes.Length] == out[..];
  }
}
