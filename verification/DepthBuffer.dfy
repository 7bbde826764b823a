/** The two screen-sized buffers of kernel/src/donut.c: b holds glyphs and z holds depths. */
module DepthBuffer {

  const FAR := 127
  const CELLS := 1760

  datatype Sample = Sample(x: int, y: int, depth: int, glyph: char) {
    predicate OnScreen() { 22 > y > 0 && 80 > x > 0 }

    function Cell(): int { x + 80 * y }
  }

  predicate Covers(s: Sample, o: int) { s.OnScreen() && s.Cell() == o }

  /** What a cell of the two buffers must hold after the given samples: the smallest depth seen there
      and the glyph of the first sample that reached it, or the initial values if there was none. */
  ghost predicate Visible(ss: seq<Sample>, o: int, z: int, b: char) {
    if forall m :: 0 <= m < |ss| ==> !Covers(ss[m], o) then z == FAR && b == ' '
    else exists m :: 0 <= m < |ss| && First(ss, o, m) && z == ss[m].depth && b == ss[m].glyph
  }

  /** Both buffers show exactly the given samples. */
  ghost predicate Painted(ss: seq<Sample>, b: array<char>, z: array<int>)
    requires b.Length == CELLS && z.Length == CELLS
    reads b, z
  {
    forall o :: 0 <= o < CELLS ==> Visible(ss, o, z[o], b[o])
  }

  /** Sample m is the first of the nearest ones in cell o. */
  ghost predicate First(ss: seq<Sample>, o: int, m: nat)
    requires m < |ss|
  {
    && Covers(ss[m], o)
    && (forall n :: 0 <= n < |ss| && Covers(ss[n], o) ==> ss[m].depth <= ss[n].depth)
    && (forall n :: 0 <= n < m && Covers(ss[n], o) ==> ss[m].depth < ss[n].depth)
  }

  /** A cell's contents are determined by the samples. */
  lemma VisibleUnique(ss: seq<Sample>, o: int, z: int, b: char, z': int, b': char)
    requires Visible(ss, o, z, b) && Visible(ss, o, z', b')
    ensures z == z' && b == b'
  {
    if m :| 0 <= m < |ss| && Covers(ss[m], o) {
      var k :| 0 <= k < |ss| && First(ss, o, k) && z == ss[k].depth && b == ss[k].glyph;
      var l :| 0 <= l < |ss| && First(ss, o, l) && z' == ss[l].depth && b' == ss[l].glyph;
      assert k == l;
    }
  }

  /** The first row and the first column stay empty. */
  lemma MarginsAreBlank(ss: seq<Sample>, o: int, z: int, b: char)
    requires Visible(ss, o, z, b) && 0 <= o < CELLS && (o < 80 || o % 80 == 0)
    ensures z == FAR && b == ' '
  {
    forall m | 0 <= m < |ss|
      ensures !Covers(ss[m], o)
    {
    }
  }

  lemma VisibleMiss(ss: seq<Sample>, s: Sample, o: int, z: int, b: char)
    requires Visible(ss, o, z, b) && !Covers(s, o)
    ensures Visible(ss + [s], o, z, b)
  {
    var tt := ss + [s];
    if m :| 0 <= m < |ss| && Covers(ss[m], o) {
      var k :| 0 <= k < |ss| && First(ss, o, k) && z == ss[k].depth && b == ss[k].glyph;
      assert Covers(tt[k], o);
      assert First(tt, o, k);
    }
  }

  lemma VisibleHit(ss: seq<Sample>, s: Sample, o: int, z: int, b: char)
    requires Visible(ss, o, z, b) && Covers(s, o) && s.depth < FAR
    ensures if s.depth < z then Visible(ss + [s], o, s.depth, s.glyph) else Visible(ss + [s], o, z, b)
  {
    var tt := ss + [s];
    assert Covers(tt[|ss|], o);
    if m :| 0 <= m < |ss| && Covers(ss[m], o) {
      var k :| 0 <= k < |ss| && First(ss, o, k) && z == ss[k].depth && b == ss[k].glyph;
      assert First(tt, o, if s.depth < z then |ss| else k);
    } else {
      assert First(tt, o, |ss|);
    }
  }

  /** Lines 89-94: the depth test and the two buffer writes. */
  method Plot(s: Sample, ghost ss: seq<Sample>, b: array<char>, z: array<int>)
    requires b.Length == CELLS && z.Length == CELLS && s.depth < FAR
    requires Painted(ss, b, z)
    modifies b, z
    ensures Painted(ss + [s], b, z)
  {
    var o := s.Cell();
    forall c | 0 <= c < CELLS
      ensures if !Covers(s, c) then Visible(ss + [s], c, z[c], b[c])
              else if s.depth < z[c] then Visible(ss + [s], c, s.depth, s.glyph)
              else Visible(ss + [s], c, z[c], b[c])
    {
      if Covers(s, c) {
        VisibleHit(ss, s, c, z[c], b[c]);
      } else {
        VisibleMiss(ss, s, c, z[c], b[c]);
      }
    }
    if 22 > s.y && s.y > 0 && s.x > 0 && 80 > s.x && s.depth < z[o] {
      z[o] := s.depth;
      b[o] := s.glyph;
    }
  }

  /** Lines 69-70: the two memset calls. */
  method Clear(b: array<char>, z: array<int>)
    requires b.Length == CELLS && z.Length == CELLS
    modifies b, z
    ensures Painted([], b, z)
  {
    for k := 0 to CELLS
      invariant forall o :: 0 <= o < k ==> b[o] == ' ' && z[o] == FAR
    {
      b[k] := ' ';
      z[k] := FAR;
    }
  }
}
