/** The deduplicating payload packer of `generate_texture`
    (glyphy_lib.cc:424-503). `tex_data` is a growing vector of texels: the
    first GRID_X * GRID_Y entries are the cell headers in row-major order,
    the payload follows. Each cell's run is appended, the payload before it
    is scanned from its start for the earliest window equal to the run
    except for the run's very first byte (the r byte of its first record),
    and on a hit the run is dropped again and the header points at the
    window. Header offsets are texel indices into the whole vector. */
module Packer {
  import opened Bits
  import opened Records
  import opened Runs

  const GRID_X: nat := 16
  const GRID_Y: nat := 16
  const HEADER_LENGTH: nat := GRID_X * GRID_Y

  datatype Option<T> = None | Some(value: T)

  /** `row * GRID_X + col` indexes the header area. */
  lemma CellIndex(row: nat, col: nat)
    requires row < GRID_Y && col < GRID_X
    ensures row * GRID_X + col < HEADER_LENGTH
  {
    MulLeMono(row, GRID_Y - 1, GRID_X);
  }

  /** The bytes of one texel in memory order. */
  function TexelBytes(t: Texel): seq<Byte>
  {
    [t.r, t.g, t.b, t.a]
  }

  /** The bytes of a texel range, as `memcmp` sees it. */
  function Flatten(ts: seq<Texel>): (bs: seq<Byte>)
    ensures |bs| == 4 * |ts|
  {
    if ts == [] then [] else TexelBytes(ts[0]) + Flatten(ts[1..])
  }

  lemma {:induction false} FlattenInjective(a: seq<Texel>, b: seq<Texel>)
    requires |a| == |b| && Flatten(a) == Flatten(b)
    ensures a == b
  {
    if a != [] {
      assert Flatten(a)[..4] == TexelBytes(a[0]);
      assert Flatten(b)[..4] == TexelBytes(b[0]);
      assert Flatten(a)[4..] == Flatten(a[1..]);
      assert Flatten(b)[4..] == Flatten(b[1..]);
      FlattenInjective(a[1..], b[1..]);
      assert a == [a[0]] + a[1..];
      assert b == [b[0]] + b[1..];
    }
  }

  /** Equal record ranges, except that the first record's r byte may differ. */
  predicate SameIgnoringFirstR(a: seq<Texel>, b: seq<Texel>)
  {
    && |a| == |b|
    && (|a| > 0 ==> a[0].g == b[0].g && a[0].b == b[0].b && a[0].a == b[0].a && a[1..] == b[1..])
  }

  /** `memcmp (1 + (char *) a, 1 + (char *) b, |a| * 4 - 1) == 0`. */
  predicate BytesEqualAfterFirst(a: seq<Texel>, b: seq<Texel>)
    requires |a| == |b| > 0
  {
    Flatten(a)[1..] == Flatten(b)[1..]
  }

  /** Skipping one byte of the comparison skips exactly the first r byte,
      because r is the first channel of a texel in memory. */
  lemma SkipFirstByteIsFirstR(a: seq<Texel>, b: seq<Texel>)
    requires |a| == |b| > 0
    ensures BytesEqualAfterFirst(a, b) <==> SameIgnoringFirstR(a, b)
  {
    assert Flatten(a)[1..] == [a[0].g, a[0].b, a[0].a] + Flatten(a[1..]);
    assert Flatten(b)[1..] == [b[0].g, b[0].b, b[0].a] + Flatten(b[1..]);
    if BytesEqualAfterFirst(a, b) {
      assert Flatten(a)[1..][3..] == Flatten(a[1..]);
      assert Flatten(b)[1..][3..] == Flatten(b[1..]);
      FlattenInjective(a[1..], b[1..]);
    }
  }

  /** The run could be served by the window of `data` at j. */
  predicate Reusable(data: seq<Texel>, run: seq<Texel>, j: nat)
  {
    j + |run| <= |data| && SameIgnoringFirstR(run, data[j..j + |run|])
  }

  /** The earliest window at or after j that can serve the run. */
  function FirstMatch(data: seq<Texel>, run: seq<Texel>, j: nat): Option<nat>
    requires |run| > 0
    decreases |data| - j
  {
    if j + |run| > |data| then None
    else if Reusable(data, run, j) then Some(j)
    else FirstMatch(data, run, j + 1)
  }

  /** FirstMatch finds the least reusable window from j on, or there is none. */
  lemma {:induction false} FirstMatchIsLeast(data: seq<Texel>, run: seq<Texel>, j: nat)
    requires |run| > 0
    decreases |data| - j
    ensures var m := FirstMatch(data, run, j);
      && (m.Some? ==> j <= m.value && Reusable(data, run, m.value)
                      && forall k :: j <= k < m.value ==> !Reusable(data, run, k))
      && (m.None? ==> forall k :: j <= k ==> !Reusable(data, run, k))
  {
    if j + |run| <= |data| && !Reusable(data, run, j) {
      FirstMatchIsLeast(data, run, j + 1);
    }
  }

  /** The scan of glyphy_lib.cc:466-486: the needle is `buf[offset..]`, the
      haystack the windows of `buf[..offset]` from headerLength on, tried
      one texel apart. The earliest window that matches is returned; an
      empty needle is not searched for. */
  method FindMatch(buf: seq<Texel>, headerLength: nat, offset: nat) returns (found: bool, pos: nat)
    requires headerLength <= offset <= |buf|
    ensures found ==> offset < |buf| && headerLength <= pos && Reusable(buf[..offset], buf[offset..], pos)
    ensures found ==> forall k :: headerLength <= k < pos ==> !Reusable(buf[..offset], buf[offset..], k)
    ensures !found ==> offset == |buf| || forall k :: headerLength <= k ==> !Reusable(buf[..offset], buf[offset..], k)
  {
    var needleLen := |buf| - offset;
    var haystack := headerLength;
    var haystackLen := offset - headerLength;
    found := false;
    if needleLen > 0 {
      while haystackLen >= needleLen
        invariant headerLength <= haystack && haystack + haystackLen == offset
        invariant forall k :: headerLength <= k < haystack ==> !Reusable(buf[..offset], buf[offset..], k)
        decreases haystackLen
      {
        var needle, window := buf[offset..], buf[haystack..haystack + needleLen];
        SkipFirstByteIsFirstR(needle, window);
        assert buf[..offset][haystack..haystack + needleLen] == window;
        if BytesEqualAfterFirst(needle, window) {
          found := true;
          break;
        }
        haystack := haystack + 1;
        haystackLen := haystackLen - 1;
      }
    }
    pos := haystack;
  }

  /** Where a cell's run ends up: the payload after the cell, the offset
      its header points at, and whether an earlier window was reused. */
  datatype Packed = Packed(payload: seq<Texel>, at: nat, reused: bool)

  /** One cell of the packer on the payload taken as a value: an empty run
      points at the end; otherwise the earliest reusable window is used,
      or the run is appended. */
  function Dedup(data: seq<Texel>, run: seq<Texel>): Packed
  {
    if run == [] then Packed(data, |data|, false)
    else match FirstMatch(data, run, HEADER_LENGTH)
      case Some(j) => Packed(data, j, true)
      case None => Packed(data + run, |data|, false)
  }

  /** Whatever the packer chooses, the payload only grows, the offset is at
      or past the headers, and the range it names reproduces the run except
      possibly for its first r byte. */
  lemma DedupStores(data: seq<Texel>, run: seq<Texel>)
    requires HEADER_LENGTH <= |data|
    ensures var p := Dedup(data, run);
      && p.payload == (if p.reused then data else data + run)
      && HEADER_LENGTH <= p.at && p.at + |run| <= |p.payload|
      && SameIgnoringFirstR(run, p.payload[p.at..p.at + |run|])
  {
    if run != [] {
      FirstMatchIsLeast(data, run, HEADER_LENGTH);
      var p := Dedup(data, run);
      if p.payload == data + run {
        assert p.payload[p.at..p.at + |run|] == run;
      }
    }
  }

  /** Dedup choice: a non-empty run reuses the payload exactly when some
      window past the headers can serve it, and then the earliest such
      window; an empty run reuses nothing and points at the end. */
  lemma DedupChoice(data: seq<Texel>, run: seq<Texel>)
    ensures run == [] ==> Dedup(data, run) == Packed(data, |data|, false)
    ensures run != [] ==>
      (Dedup(data, run).reused <==> exists k :: HEADER_LENGTH <= k && Reusable(data, run, k))
    ensures Dedup(data, run).reused ==>
      var j := Dedup(data, run).at;
      && Dedup(data, run).payload == data
      && HEADER_LENGTH <= j && Reusable(data, run, j)
      && forall k :: HEADER_LENGTH <= k < j ==> !Reusable(data, run, k)
    ensures run != [] && !Dedup(data, run).reused ==>
      Dedup(data, run) == Packed(data + run, |data|, false)
  {
    if run != [] {
      FirstMatchIsLeast(data, run, HEADER_LENGTH);
    }
  }

  /** The search method agrees with Dedup on the buffer holding the run. */
  lemma SearchIsDedup(data: seq<Texel>, run: seq<Texel>, found: bool, pos: nat)
    requires run != []
    requires found ==> HEADER_LENGTH <= pos && Reusable(data, run, pos)
    requires found ==> forall k :: HEADER_LENGTH <= k < pos ==> !Reusable(data, run, k)
    requires !found ==> forall k :: HEADER_LENGTH <= k ==> !Reusable(data, run, k)
    ensures Dedup(data, run) == if found then Packed(data, pos, true) else Packed(data + run, |data|, false)
  {
    FirstMatchIsLeast(data, run, HEADER_LENGTH);
  }

  /** Cell `cell` is stored in `buf`: its header encodes p's offset, the
      run's length and the inside flag, and the range it names reproduces
      the run except possibly for the first r byte. */
  predicate Placed(buf: seq<Texel>, cell: nat, p: Placement)
  {
    && cell < HEADER_LENGTH <= p.offset
    && p.offset + |p.run| <= |buf|
    && SameIgnoringFirstR(p.run, buf[p.offset..p.offset + |p.run|])
    && buf[cell] == Header(p.offset, |p.run|, p.inside)
  }

  datatype Placement = Placement(offset: nat, run: seq<Texel>, inside: bool)

  /** Every listed cell is stored in buf, cell c with placement ps[c]. */
  predicate AllPlaced(buf: seq<Texel>, ps: seq<Placement>)
  {
    forall c :: 0 <= c < |ps| ==> Placed(buf, c, ps[c])
  }

  /** A stored cell stays stored when its header and the payload it names
      are left alone. */
  lemma PlacedStable(buf: seq<Texel>, buf': seq<Texel>, cell: nat, p: Placement)
    requires Placed(buf, cell, p) && |buf| <= |buf'| && buf'[cell] == buf[cell]
    requires forall k :: HEADER_LENGTH <= k < |buf| ==> buf'[k] == buf[k]
    ensures Placed(buf', cell, p)
  {
    assert buf'[p.offset..p.offset + |p.run|] == buf[p.offset..p.offset + |p.run|];
  }

  /** The buffer after one cell: the packer's choice for the run, with the
      cell's header set to the chosen offset, the run's length and the flag. */
  function Commit(data: seq<Texel>, cell: nat, run: seq<Texel>, inside: bool): (r: seq<Texel>)
    requires cell < HEADER_LENGTH <= |data|
    ensures |data| <= |r|
  {
    var p := Dedup(data, run);
    p.payload[cell := Header(p.at, |run|, inside)]
  }

  /** `arclist_encode` as glyphy_lib.cc:493 calls it: the header texel. */
  method EncodeHeader(offset: nat, numPoints: nat, isInside: bool) returns (t: Texel)
    ensures t == Header(offset, numPoints, isInside)
  {
    t := ArclistEncode(offset, numPoints, isInside);
    ArclistEncodeIsHeader(offset, numPoints, isInside);
  }

  /** Committing a cell only grows the buffer and, among the entries already
      there, changes only that cell's header; the payload past the old end
      is the run itself when no window was reused. */
  lemma CommitFrame(data: seq<Texel>, cell: nat, run: seq<Texel>, inside: bool)
    requires cell < HEADER_LENGTH <= |data|
    ensures var r := Commit(data, cell, run, inside);
      && forall k :: 0 <= k < |data| && k != cell ==> r[k] == data[k]
    ensures !Dedup(data, run).reused ==> Commit(data, cell, run, inside)[|data|..] == run
  {
    DedupStores(data, run);
  }

  /** Committing a cell stores it at the place the packer chose. */
  lemma CommitStores(before: seq<Texel>, cell: nat, run: seq<Texel>, inside: bool)
    requires cell < HEADER_LENGTH <= |before|
    ensures Placed(Commit(before, cell, run, inside), cell, Placement(Dedup(before, run).at, run, inside))
  {
    var p := Dedup(before, run);
    var after := Commit(before, cell, run, inside);
    assert after == p.payload[cell := Header(p.at, |run|, inside)];
    DedupStores(before, run);
    assert after[p.at..p.at + |run|] == p.payload[p.at..p.at + |run|];
  }

  /** Committing a cell keeps every other stored cell stored. */
  lemma CommitKeeps(before: seq<Texel>, cell: nat, run: seq<Texel>, inside: bool, c: nat, p: Placement)
    requires cell < HEADER_LENGTH <= |before| && c != cell && Placed(before, c, p)
    ensures Placed(Commit(before, cell, run, inside), c, p)
  {
    CommitFrame(before, cell, run, inside);
    PlacedStable(before, Commit(before, cell, run, inside), c, p);
  }

  /** Committing the next cell stores it and keeps every earlier cell stored. */
  lemma CommitPlaces(before: seq<Texel>, run: seq<Texel>, inside: bool, placed: seq<Placement>)
    requires HEADER_LENGTH <= |before| && |placed| < HEADER_LENGTH
    requires AllPlaced(before, placed)
    ensures AllPlaced(Commit(before, |placed|, run, inside), placed + [Placement(Dedup(before, run).at, run, inside)])
  {
    var cell := |placed|;
    var placed' := placed + [Placement(Dedup(before, run).at, run, inside)];
    forall c | 0 <= c < |placed'|
      ensures Placed(Commit(before, cell, run, inside), c, placed'[c])
    {
      if c < cell {
        CommitKeeps(before, cell, run, inside, c, placed[c]);
      } else {
        CommitStores(before, cell, run, inside);
      }
    }
  }

  /** Reading a stored cell back through its header: below 2^24 texels and
      255 points, the header's offset and count fields name the cell's
      range, and the count byte is the sentinel 255 exactly for an empty
      inside cell. */
  lemma HeaderLocatesRun(buf: seq<Texel>, cell: nat, p: Placement)
    requires Placed(buf, cell, p) && p.offset < 0x100_0000 && |p.run| < 255
    ensures var t := buf[cell];
      var off := t.r * 0x1_0000 + t.g * 0x100 + t.b;
      var n := if t.a == 255 then 0 else t.a;
      && off == p.offset && n == |p.run|
      && SameIgnoringFirstR(p.run, buf[off..off + n])
      && (t.a == 255 <==> p.inside && p.run == [])
  {
    var t := ArclistEncode(p.offset, |p.run|, p.inside);
    ArclistEncodeIsHeader(p.offset, |p.run|, p.inside);
    assert buf[cell] == t;
    HeaderCountRoundTrip(p.offset, |p.run|, p.inside);
  }

  /** `(tex_len + tex_w - 1) / tex_w` is the ceiling of tex_len / tex_w. */
  lemma CeilDiv(len: nat, w: nat)
    requires w > 0
    ensures var h := (len + w - 1) / w;
      len <= h * w < len + w
  {
    DivMod(len + w - 1, w);
  }

  /** `tex_data`, the payload offset and the saved-bytes counter of
      `generate_texture`. */
  class TextureBuilder {
    var data: seq<Texel>
    var offset: nat
    var savedBytes: nat
    /** The cells processed so far, in row-major order. */
    ghost var placed: seq<Placement>

    ghost predicate Valid()
      reads this
    {
      && HEADER_LENGTH <= offset == |data|
      && |placed| <= HEADER_LENGTH
      && AllPlaced(data, placed)
    }

    /** glyphy_lib.cc:424-434: room for the headers, payload starting after them. */
    constructor ()
      ensures Valid()
      ensures data == seq(HEADER_LENGTH, _ => ZeroTexel) && offset == HEADER_LENGTH
      ensures savedBytes == 0 && placed == []
    {
      data := seq(HEADER_LENGTH, _ => ZeroTexel);
      offset := HEADER_LENGTH;
      savedBytes := 0;
      placed := [];
    }

    /** glyphy_lib.cc:452-464: push the cell's run onto the buffer. */
    method AppendRun<P(==,0)>(arcs: seq<Arc<P>>, q: Quantiser<P>)
      requires EncodableArcs(arcs, q)
      modifies this`data
      ensures data == old(data) + Run(arcs, q)
    {
      var p1: P := *;
      var i := 0;
      while i < |arcs|
        invariant 0 <= i <= |arcs|
        invariant data == old(data) + RunUpTo(arcs, i, q)
        invariant i > 0 ==> p1 == arcs[i - 1].p1
      {
        var arc := arcs[i];
        RunUpToStep(arcs, i, q);
        if i == 0 || p1 != arc.p0 {
          var marker := EncodeEndpoint(q, arc.p0, Infinite);
          data := data + [marker];
        }
        var record := EncodeEndpoint(q, arc.p1, Finite(arc.d));
        data := data + [record];
        p1 := arc.p1;
        i := i + 1;
      }
    }

    /** glyphy_lib.cc:466-494: the run just appended past `offset` is
        searched for in the payload before it; on a hit it is dropped again
        and the header points at the window, otherwise at the run. The
        header of the cell is written and the offset moves to the end. */
    method PlacePendingRun(row: nat, col: nat, inside: bool)
      requires row < GRID_Y && col < GRID_X && row * GRID_X + col == |placed|
      requires HEADER_LENGTH <= offset <= |data| && AllPlaced(data[..offset], placed)
      modifies this
      ensures Valid()
      ensures var before, run := old(data[..offset]), old(data[offset..]);
        && data == Commit(before, row * GRID_X + col, run, inside)
        && placed == old(placed) + [Placement(Dedup(before, run).at, run, inside)]
        && savedBytes == old(savedBytes) + (if Dedup(before, run).reused then 4 * |run| else 0)
    {
      ghost var before, run := data[..offset], data[offset..];
      var cell := row * GRID_X + col;
      CellIndex(row, col);
      ghost var p := Dedup(before, run);
      var numEndpoints := |data| - offset;

      var found, pos := FindMatch(data, HEADER_LENGTH, offset);
      assert p == if found then Packed(before, pos, true) else Packed(before + run, |before|, false) by {
        assert data == before + run;
        if run != [] {
          SearchIsDedup(before, run, found, pos);
        }
      }
      if found {
        data := data[..offset];
        offset := pos;
        savedBytes := savedBytes + numEndpoints * 4;
      }
      assert data == p.payload && offset == p.at && numEndpoints == |run|;
      var header := EncodeHeader(offset, numEndpoints, inside);
      data := data[cell := header];
      assert data == Commit(before, cell, run, inside);
      CommitPlaces(before, run, inside, placed);
      placed := placed + [Placement(offset, run, inside)];
      offset := |data|;
    }

    /** glyphy_lib.cc:444-494 for the cell at (row, col), whose near arcs and
        inside flag the caller computed: append the run, then place it. */
    method ProcessCell<P(==,0)>(row: nat, col: nat, arcs: seq<Arc<P>>, inside: bool, q: Quantiser<P>)
      requires Valid() && row < GRID_Y && col < GRID_X && row * GRID_X + col == |placed|
      requires EncodableArcs(arcs, q)
      modifies this
      ensures Valid()
      ensures var run := Run(arcs, q);
        && data == Commit(old(data), row * GRID_X + col, run, inside)
        && placed == old(placed) + [Placement(Dedup(old(data), run).at, run, inside)]
        && savedBytes == old(savedBytes) + (if Dedup(old(data), run).reused then 4 * |run| else 0)
    {
      ghost var before := data;
      AppendRun(arcs, q);
      assert data[..offset] == before && data[offset..] == Run(arcs, q);
      PlacePendingRun(row, col, inside);
    }

    /** glyphy_lib.cc:497-501: fold the buffer into rows of `width` texels,
        padding the last row with zero texels. */
    method Pad(width: nat) returns (height: nat)
      requires width > 0
      modifies this`data
      ensures |old(data)| <= width * height < |old(data)| + width
      ensures data == old(data) + seq(width * height - |old(data)|, _ => ZeroTexel)
    {
      var texLen := |data|;
      var texW := width;
      height := (texLen + texW - 1) / texW;
      CeilDiv(texLen, texW);
      data := data + seq(texW * height - texLen, _ => ZeroTexel);
    }
  }
}
