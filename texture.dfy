/** The encoder loop of `generate_texture` (glyphy_lib.cc:424-501) from the
    cells' near-arc lists on: every cell of the GRID_X by GRID_Y grid, in
    row-major order, is run through the packer, and the buffer is folded
    into rows of the requested width. The near arcs and the inside flag of
    each cell are inputs, as computed by `closest_arcs_to_cell`. */
module Texture {
  import opened Records
  import opened Runs
  import opened Packer

  /** What `closest_arcs_to_cell` reports for one cell. */
  datatype Cell<P> = Cell(nearArcs: seq<Arc<P>>, inside: bool)

  predicate EncodableCells<P>(cells: seq<Cell<P>>, q: Quantiser<P>)
  {
    forall c :: 0 <= c < |cells| ==> EncodableArcs(cells[c].nearArcs, q)
  }

  /** A cell as the packer sees it: its run of records and its inside flag. */
  datatype CellRun = CellRun(run: seq<Texel>, inside: bool)

  /** The runs of all cells, in row-major order. */
  function CellRuns<P(==)>(cells: seq<Cell<P>>, q: Quantiser<P>): (cs: seq<CellRun>)
    requires EncodableCells(cells, q)
    ensures |cs| == |cells|
  {
    if cells == [] then []
    else [CellRun(Run(cells[0].nearArcs, q), cells[0].inside)] + CellRuns(cells[1..], q)
  }

  lemma {:induction false} CellRunsAt<P>(cells: seq<Cell<P>>, q: Quantiser<P>, c: nat)
    requires EncodableCells(cells, q) && c < |cells|
    ensures CellRuns(cells, q)[c] == CellRun(Run(cells[c].nearArcs, q), cells[c].inside)
  {
    if c > 0 {
      CellRunsAt(cells[1..], q, c - 1);
    }
  }

  /** The packer's state as a value: `tex_data` and the placements of the
      cells processed so far, in row-major order. */
  datatype Packing = Packing(buf: seq<Texel>, placed: seq<Placement>)

  /** The packer after the first n cells, row-major: the zeroed headers,
      then one packer step per cell. */
  function PackUpTo(cs: seq<CellRun>, n: nat): (st: Packing)
    requires n <= |cs| <= HEADER_LENGTH
    ensures HEADER_LENGTH <= |st.buf| && |st.placed| == n
  {
    if n == 0 then Packing(seq(HEADER_LENGTH, _ => ZeroTexel), [])
    else
      var prev := PackUpTo(cs, n - 1);
      var cr := cs[n - 1];
      Packing(Commit(prev.buf, n - 1, cr.run, cr.inside),
              prev.placed + [Placement(Dedup(prev.buf, cr.run).at, cr.run, cr.inside)])
  }

  /** One packer step only grows the buffer and changes no earlier entry
      except the header of the cell it processes. */
  lemma PackStepFrame(cs: seq<CellRun>, n: nat)
    requires n < |cs| <= HEADER_LENGTH
    ensures var before, after := PackUpTo(cs, n).buf, PackUpTo(cs, n + 1).buf;
      && |before| <= |after|
      && forall k :: 0 <= k < |before| && k != n ==> after[k] == before[k]
  {
    CommitFrame(PackUpTo(cs, n).buf, n, cs[n].run, cs[n].inside);
  }

  /** After n cells, each of them is stored: its header names a range of the
      buffer that reproduces its run except possibly for the first r byte. */
  lemma {:induction false} PackPlacesAll(cs: seq<CellRun>, n: nat)
    requires n <= |cs| <= HEADER_LENGTH
    ensures AllPlaced(PackUpTo(cs, n).buf, PackUpTo(cs, n).placed)
  {
    if n > 0 {
      PackPlacesAll(cs, n - 1);
      var prev := PackUpTo(cs, n - 1);
      CommitPlaces(prev.buf, cs[n - 1].run, cs[n - 1].inside, prev.placed);
    }
  }

  /** Placements are only ever appended: those after k cells are a prefix of
      those after n >= k cells. */
  lemma {:induction false} PlacedPrefix(cs: seq<CellRun>, k: nat, n: nat)
    requires k <= n <= |cs| <= HEADER_LENGTH
    ensures PackUpTo(cs, k).placed <= PackUpTo(cs, n).placed
  {
    if k < n {
      PlacedPrefix(cs, k, n - 1);
      var prev := PackUpTo(cs, n - 1).placed;
      var last := PackUpTo(cs, n).placed[n - 1];
      assert PackUpTo(cs, n).placed == prev + [last];
      PrefixOfConcat(PackUpTo(cs, k).placed, prev, [last]);
    }
  }

  /** A cell's placement, fixed when the cell is processed, carries the
      cell's run and flag, and its offset is the packer's choice on the
      buffer as it stood before that cell. */
  lemma PlacementOfCell(cs: seq<CellRun>, n: nat, c: nat)
    requires c < n <= |cs| <= HEADER_LENGTH
    ensures var p := PackUpTo(cs, n).placed[c];
      && p.run == cs[c].run && p.inside == cs[c].inside
      && p.offset == Dedup(PackUpTo(cs, c).buf, cs[c].run).at
  {
    PlacedPrefix(cs, c + 1, n);
    var st := PackUpTo(cs, c + 1);
    assert st.placed[c] == Placement(Dedup(PackUpTo(cs, c).buf, cs[c].run).at, cs[c].run, cs[c].inside);
    assert PackUpTo(cs, n).placed[c] == st.placed[c];
  }

  /** Every cell of the grid is stored in `buffer`, with its own run and
      inside flag, at the offset the packer chose for it on the buffer as it
      stood before that cell. */
  ghost predicate StoresCells<P>(cells: seq<Cell<P>>, q: Quantiser<P>, buffer: seq<Texel>)
    requires |cells| == HEADER_LENGTH && EncodableCells(cells, q)
  {
    var cs := CellRuns(cells, q);
    forall c :: 0 <= c < HEADER_LENGTH ==>
      var p := PackUpTo(cs, HEADER_LENGTH).placed[c];
      && Placed(buffer, c, p)
      && p.run == Run(cells[c].nearArcs, q) && p.inside == cells[c].inside
      && p.offset == Dedup(PackUpTo(cs, c).buf, p.run).at
  }

  /** The packed buffer, and any buffer that extends it, stores every cell. */
  lemma {:induction false} CellsStored<P>(cells: seq<Cell<P>>, q: Quantiser<P>, buffer: seq<Texel>)
    requires |cells| == HEADER_LENGTH && EncodableCells(cells, q)
    requires PackUpTo(CellRuns(cells, q), HEADER_LENGTH).buf <= buffer
    ensures StoresCells(cells, q, buffer)
  {
    var cs := CellRuns(cells, q);
    var packed := PackUpTo(cs, HEADER_LENGTH);
    PackPlacesAll(cs, HEADER_LENGTH);
    forall c | 0 <= c < HEADER_LENGTH
      ensures var p := packed.placed[c];
        && Placed(buffer, c, p)
        && p.run == Run(cells[c].nearArcs, q) && p.inside == cells[c].inside
        && p.offset == Dedup(PackUpTo(cs, c).buf, p.run).at
    {
      PlacementOfCell(cs, HEADER_LENGTH, c);
      CellRunsAt(cells, q, c);
      PlacedStable(packed.buf, buffer, c, packed.placed[c]);
    }
  }

  /** The inner loop of glyphy_lib.cc:435-494: the cells of one grid row,
      left to right. */
  method ProcessRow<P(==,0)>(b: TextureBuilder, row: nat, cells: seq<Cell<P>>, q: Quantiser<P>)
    requires |cells| == HEADER_LENGTH && EncodableCells(cells, q) && row < GRID_Y
    requires b.Valid()
    requires b.data == PackUpTo(CellRuns(cells, q), row * GRID_X).buf
    requires b.placed == PackUpTo(CellRuns(cells, q), row * GRID_X).placed
    modifies b
    ensures b.Valid()
    ensures b.data == PackUpTo(CellRuns(cells, q), (row + 1) * GRID_X).buf
    ensures b.placed == PackUpTo(CellRuns(cells, q), (row + 1) * GRID_X).placed
  {
    ghost var cs := CellRuns(cells, q);
    ghost var first := row * GRID_X;
    for col := 0 to GRID_X
      invariant b.Valid()
      invariant b.data == PackUpTo(cs, first + col).buf && b.placed == PackUpTo(cs, first + col).placed
    {
      CellIndex(row, col);
      var cell := row * GRID_X + col;
      CellRunsAt(cells, q, cell);
      b.ProcessCell(row, col, cells[cell].nearArcs, cells[cell].inside, q);
    }
  }

  /** glyphy_lib.cc:430-494: the header area, then every cell of the grid,
      row by row. */
  method PackGrid<P(==,0)>(cells: seq<Cell<P>>, q: Quantiser<P>) returns (b: TextureBuilder)
    requires |cells| == HEADER_LENGTH && EncodableCells(cells, q)
    ensures fresh(b) && b.Valid()
    ensures b.data == PackUpTo(CellRuns(cells, q), HEADER_LENGTH).buf
  {
    b := new TextureBuilder();
    ghost var cs := CellRuns(cells, q);
    for row := 0 to GRID_Y
      invariant b.Valid()
      invariant b.data == PackUpTo(cs, row * GRID_X).buf && b.placed == PackUpTo(cs, row * GRID_X).placed
    {
      ProcessRow(b, row, cells, q);
    }
  }

  /** `generate_texture` from the near-arc lists on: the buffer is the
      packed texture padded with zero texels to `width * height`, the
      smallest multiple of the width that holds it, and every cell is
      stored, with its own run and inside flag, at the place the packer
      chose. */
  method GenerateTexture<P(==,0)>(cells: seq<Cell<P>>, q: Quantiser<P>, width: nat)
    returns (height: nat, buffer: seq<Texel>)
    requires |cells| == HEADER_LENGTH && width > 0
    requires EncodableCells(cells, q)
    ensures var packed := PackUpTo(CellRuns(cells, q), HEADER_LENGTH).buf;
      && |packed| <= width * height < |packed| + width
      && buffer == packed + seq(width * height - |packed|, _ => ZeroTexel)
    ensures StoresCells(cells, q, buffer)
  {
    var b := PackGrid(cells, q);
    ghost var packed := b.data;
    height := b.Pad(width);
    buffer := b.data;
    assert packed <= buffer;
    CellsStored(cells, q, buffer);
  }
}
