/** The writer, the validator and the loader together, on a file. */
module LstiThroughFile {
  import opened Bytes
  import opened ThunkGraph
  import opened LstiTable
  import opened LstiImage
  import opened LstiFormat
  import RoundTrip = LstiRoundTrip
  import Reader = LstiReader
  import Writer = LstiWriter

  /**
    A graph is written, its image loaded on top of any heap, and the loaded roots written again: the loaded graph is
    isomorphic to the original, nothing older in the heap has changed, and the second file is the first byte for byte.
   */
  method WriteLoadWrite(h: Heap, roots: seq<Ptr>, arena: Reader.Arena, alignLog2: AlignLog2, flags: nat)
    returns (rc: int, roots': seq<Ptr>, first: seq<byte>, second: seq<byte>)
    requires Wired(h) && InHeap(h, roots) && Wired(arena.cells) && Complete(TableOf(h, roots))
    requires |Image(TableOf(h, roots), alignLog2, flags)| < 0x1_0000_0000
    modifies arena
    ensures rc == 0 && Isomorphic(h, roots, arena.cells, roots') && old(arena.cells) <= arena.cells
    ensures first == Image(TableOf(h, roots), alignLog2, flags) && second == first
  {
    hide Image, ValidImage, Loadable, Decodes, Decoded, TableOf, Complete, Isomorphic, Load, LoadRoots, Wired, InHeap;
    RoundTrip.WriteThenLoad(h, roots, arena.cells, alignLog2, flags);
    var out := new File();
    rc := Writer.Write(out, h, roots, alignLog2, flags);
    first := out.data;
    ghost var h0 := arena.cells;
    rc, roots' := Reader.Materialize(arena, first);
    LoadExtends(h0, Decoded(first));
    TableStorable(h, roots);
    RoundTrip.ImageRoundTrip(TableOf(h, roots), alignLog2, flags);
    TableReloaded(h, roots, h0);
    var again := new File();
    rc := Writer.Write(again, arena.cells, roots', alignLog2, flags);
    second := again.data;
  }

  lemma {:induction false} LoadExtends(h: Heap, t: Table)
    ensures h <= Load(h, t)
  {
  }
}
