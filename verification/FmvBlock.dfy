/**
  The video block of a frame (write_block in tools/fmv_encode.c): the palettes' colours as 15-bit words, the tile map
  and the tiles' bitplanes. A block is the sequence of its bytes.
*/
module FmvBlock {
  import opened Arith
  import opened Bytes
  import opened FmvMux
  import opened Pixels

  /** What a block is written from: palettes of 15 colours, the backdrop, each tile's palette and its 32 bytes. */
  datatype Video = Video(pals: seq<seq<Col>>, bg: Col, tilepal: seq<nat>, chr: seq<seq<byte>>)

  predicate Rgb(c: Col) {
    0 <= c.r < 256 && 0 <= c.g < 256 && 0 <= c.b < 256
  }

  /** Colours come from RGB24 data; the map entry has 10 bits for the tile and 3 for the palette. */
  predicate VideoOk(v: Video) {
    && Rgb(v.bg) && |v.pals| <= 8 && |v.tilepal| == |v.chr| <= 1024
    && (forall p :: 0 <= p < |v.pals| ==> |v.pals[p]| == 15 && forall c :: 0 <= c < 15 ==> Rgb(v.pals[p][c]))
    && forall t :: 0 <= t < |v.chr| ==> v.tilepal[t] < |v.pals| && |v.chr[t]| == 32
  }

  /** Colour c of palette p; colour 0 is the shared backdrop. */
  function ColourAt(v: Video, p: nat, c: nat): (x: Col)
    requires VideoOk(v) && p < |v.pals| && c < 16
    ensures Rgb(x)
  {
    if c == 0 then v.bg else v.pals[p][c - 1]
  }

  /** A colour as the hardware takes it: the top five bits of each channel. */
  function Word(x: Col): (w: nat)
    requires Rgb(x)
    ensures w < 0x8000
  {
    x.r / 8 + 32 * (x.g / 8) + 1024 * (x.b / 8)
  }

  function Entry(t: nat, pal: nat): nat {
    t + 1024 * pal
  }

  /** The sums above are the shifts and ORs of the code, on 16-bit words: a colour's three fields do not overlap ... */
  lemma ColourWord(r: bv16, g: bv16, b: bv16)
    requires r < 256 && g < 256 && b < 256
    ensures var w := (r >> 3) | ((g >> 3) << 5) | ((b >> 3) << 10);
            && w == r / 8 + 32 * (g / 8) + 1024 * (b / 8)
            && (w & 31) << 3 == r & 0xF8 && ((w >> 5) & 31) << 3 == g & 0xF8 && ((w >> 10) & 31) << 3 == b & 0xF8
  {
  }

  /** ... and neither do tile and palette, for at most 1024 tiles and 8 palettes. */
  lemma TileEntry(t: bv16, pal: bv16)
    requires t < 1024 && pal < 8
    ensures t | (pal << 10) == t + 1024 * pal
    ensures (t | (pal << 10)) & 1023 == t && ((t | (pal << 10)) >> 10) == pal
  {
  }

  // ---- the block's bytes ----

  /** The first n colour words, 16 for each palette, from the start of the block. */
  ghost predicate HasColours(o: seq<byte>, v: Video, n: nat)
    requires VideoOk(v)
  {
    n <= 16 * |v.pals| && forall k :: 0 <= k < n ==> Has16(o, 2 * k, WordAt(v, k))
  }

  function WordAt(v: Video, k: nat): nat
    requires VideoOk(v) && k < 16 * |v.pals|
  {
    Word(ColourAt(v, k / 16, k % 16))
  }

  /** The first n entries of the tile map. */
  ghost predicate HasMap(o: seq<byte>, v: Video, n: nat) {
    n <= |v.tilepal| && forall t :: 0 <= t < n ==> Has16(o, 32 * |v.pals| + 2 * t, Entry(t, v.tilepal[t]))
  }

  /** The first n tiles. */
  ghost predicate HasTiles(o: seq<byte>, v: Video, n: nat) {
    n <= |v.chr| && forall t :: 0 <= t < n ==> TileAt(o, v, t, v.chr[t])
  }

  /** Tile t's bytes. */
  ghost predicate TileAt(o: seq<byte>, v: Video, t: nat, chr: seq<byte>) {
    var at := 32 * |v.pals| + 2 * |v.tilepal| + 32 * t;
    |chr| == 32 && at + 32 <= |o| && forall i :: 0 <= i < 32 ==> o[at + i] == chr[i]
  }

  /** BLOCK. */
  function BlockSize(v: Video): nat {
    32 * |v.pals| + 2 * |v.tilepal| + 32 * |v.tilepal|
  }

  ghost predicate IsBlock(o: seq<byte>, v: Video)
    requires VideoOk(v)
  {
    |o| == BlockSize(v) && HasColours(o, v, 16 * |v.pals|) && HasMap(o, v, |v.tilepal|) && HasTiles(o, v, |v.chr|)
  }

  lemma PutWord(o: seq<byte>, w: nat)
    ensures Has16(o + W16(w), |o|, w)
    ensures forall i: nat, x: nat :: Has16(o, i, x) ==> Has16(o + W16(w), i, x)
  {
  }

  /** write_block. */
  method WriteBlock(v: Video) returns (o: seq<byte>)
    requires VideoOk(v)
    ensures IsBlock(o, v)
  {
    o := WritePalettes(v);
    var t := 0;
    while t < |v.tilepal|
      invariant t <= |v.tilepal| && |o| == 32 * |v.pals| + 2 * t
      invariant HasColours(o, v, 16 * |v.pals|) && HasMap(o, v, t)
    {
      var e := Entry(t, v.tilepal[t]);
      PutWord(o, e);
      o := o + W16(e);
      t := t + 1;
    }
    o := WriteTiles(v, o);
  }

  /** The two nested loops over palettes and colours. */
  method WritePalettes(v: Video) returns (o: seq<byte>)
    requires VideoOk(v)
    ensures |o| == 32 * |v.pals| && HasColours(o, v, 16 * |v.pals|)
  {
    o := [];
    var p := 0;
    while p < |v.pals|
      invariant p <= |v.pals| && |o| == 32 * p && HasColours(o, v, 16 * p)
    {
      var c := 0;
      while c < 16
        invariant c <= 16 && |o| == 32 * p + 2 * c && HasColours(o, v, 16 * p + c)
      {
        var k, w := 16 * p + c, Word(ColourAt(v, p, c));
        DivUnique(k, p, 16);
        PutWord(o, w);
        o := o + W16(w);
        c := c + 1;
      }
      p := p + 1;
    }
  }

  /** fwrite of the tiles. */
  method WriteTiles(v: Video, head: seq<byte>) returns (o: seq<byte>)
    requires VideoOk(v) && |head| == 32 * |v.pals| + 2 * |v.tilepal|
    requires HasColours(head, v, 16 * |v.pals|) && HasMap(head, v, |v.tilepal|)
    ensures IsBlock(o, v)
  {
    o := head;
    var t := 0;
    while t < |v.chr|
      invariant t <= |v.chr| && |o| == |head| + 32 * t && head <= o
      invariant HasTiles(o, v, t)
    {
      TilesStay(o, v, t);
      o := o + v.chr[t];
      t := t + 1;
    }
    HeadStays(head, o, v);
  }

  lemma TilesStay(o: seq<byte>, v: Video, t: nat)
    requires VideoOk(v) && t < |v.chr| && HasTiles(o, v, t) && |o| == 32 * |v.pals| + 2 * |v.tilepal| + 32 * t
    ensures HasTiles(o + v.chr[t], v, t + 1)
  {
    var n := t + 1;
    forall u | 0 <= u < n
      ensures TileAt(o + v.chr[t], v, u, v.chr[u])
    {
      assert u < t ==> TileAt(o, v, u, v.chr[u]);
    }
  }

  lemma HeadStays(head: seq<byte>, o: seq<byte>, v: Video)
    requires VideoOk(v) && head <= o
    requires HasColours(head, v, 16 * |v.pals|) && HasMap(head, v, |v.tilepal|)
    ensures HasColours(o, v, 16 * |v.pals|) && HasMap(o, v, |v.tilepal|)
  {
    assert forall i: nat, x: nat :: Has16(head, i, x) ==> Has16(o, i, x);
  }

  // ---- reading a block ----

  lemma WordFields(x: Col)
    requires Rgb(x)
    ensures Word(x) % 32 == x.r / 8 && Word(x) / 32 % 32 == x.g / 8 && Word(x) / 1024 == x.b / 8
  {
    Fields(x.r / 8, x.g / 8, x.b / 8);
  }

  lemma Fields(a: nat, b: nat, c: nat)
    requires a < 32 && b < 32
    ensures var w := a + 32 * b + 1024 * c; w % 32 == a && w / 32 % 32 == b && w / 1024 == c
  {
  }

  lemma WordRead(o: seq<byte>, i: nat, w: nat)
    requires Has16(o, i, w) && w < 0x1_0000
    ensures Rd16(o, i) == w
  {
    Reads16(o, i, w);
    DivUnique(w, 0, 0x1_0000);
  }

  /** A reader of the block finds the top five bits of every channel of every colour. */
  lemma ColourBack(o: seq<byte>, v: Video, p: nat, c: nat)
    requires VideoOk(v) && IsBlock(o, v) && p < |v.pals| && c < 16
    ensures var w, x := Rd16(o, 32 * p + 2 * c), ColourAt(v, p, c);
            w % 32 == x.r / 8 && w / 32 % 32 == x.g / 8 && w / 1024 == x.b / 8
  {
    var k := 16 * p + c;
    DivUnique(k, p, 16);
    WordRead(o, 2 * k, WordAt(v, k));
    WordFields(ColourAt(v, p, c));
  }

  /** It finds every tile's own number and palette in the map, and the tile's bytes behind it. */
  lemma TileBack(o: seq<byte>, v: Video, t: nat)
    requires VideoOk(v) && IsBlock(o, v) && t < |v.chr|
    ensures var w := Rd16(o, 32 * |v.pals| + 2 * t); w % 1024 == t && w / 1024 == v.tilepal[t]
    ensures var at := 32 * |v.pals| + 2 * |v.tilepal| + 32 * t; o[at..at + 32] == v.chr[t]
  {
    var e := Entry(t, v.tilepal[t]);
    WordRead(o, 32 * |v.pals| + 2 * t, e);
    DivUnique(e, v.tilepal[t], 1024);
    assert TileAt(o, v, t, v.chr[t]);
  }

  /** Two videos that a block cannot tell apart: the same tiles and map, and the same colours up to their lowest three
      bits. */
  ghost predicate SameShown(v: Video, u: Video)
    requires VideoOk(v) && VideoOk(u) && |v.pals| == |u.pals|
  {
    && v.chr == u.chr && v.tilepal == u.tilepal
    && forall p, c :: 0 <= p < |v.pals| && 0 <= c < 16 ==> SameTopBits(ColourAt(v, p, c), ColourAt(u, p, c))
  }

  predicate SameTopBits(x: Col, y: Col) {
    x.r / 8 == y.r / 8 && x.g / 8 == y.g / 8 && x.b / 8 == y.b / 8
  }

  lemma BlockShows(o: seq<byte>, v: Video, u: Video)
    requires VideoOk(v) && VideoOk(u) && |v.pals| == |u.pals| && |v.chr| == |u.chr| && IsBlock(o, v) && IsBlock(o, u)
    ensures SameShown(v, u)
  {
    forall t | 0 <= t < |v.chr|
      ensures v.chr[t] == u.chr[t] && v.tilepal[t] == u.tilepal[t]
    {
      TileBack(o, v, t);
      TileBack(o, u, t);
    }
    forall p, c | 0 <= p < |v.pals| && 0 <= c < 16
      ensures SameTopBits(ColourAt(v, p, c), ColourAt(u, p, c))
    {
      ColourBack(o, v, p, c);
      ColourBack(o, u, p, c);
    }
  }

  lemma TileByte(o: seq<byte>, v: Video, t: nat, chr: seq<byte>, i: nat)
    requires TileAt(o, v, t, chr) && 32 * |v.pals| + 2 * |v.tilepal| + 32 * t <= i
    requires i < 32 * |v.pals| + 2 * |v.tilepal| + 32 * t + 32
    ensures o[i] == chr[i - (32 * |v.pals| + 2 * |v.tilepal| + 32 * t)]
  {
    var at := 32 * |v.pals| + 2 * |v.tilepal| + 32 * t;
    assert o[at + (i - at)] == chr[i - at];
  }

  lemma WordByte(o: seq<byte>, q: seq<byte>, at: nat, w: nat, i: nat)
    requires Has16(o, at, w) && Has16(q, at, w) && at <= i < at + 2
    ensures o[i] == q[i]
  {
    assert i == at || i == at + 1;
  }

  /** Every byte of a block belongs to a colour word, a map entry or a tile. */
  lemma SameByte(o: seq<byte>, q: seq<byte>, v: Video, i: nat)
    requires VideoOk(v) && IsBlock(o, v) && IsBlock(q, v) && i < |o|
    ensures o[i] == q[i]
  {
    var map0 := 32 * |v.pals|;
    var chr0 := map0 + 2 * |v.tilepal|;
    if i < map0 {
      var k := i / 2;
      WordByte(o, q, 2 * k, WordAt(v, k), i);
    } else if i < chr0 {
      var t := (i - map0) / 2;
      WordByte(o, q, map0 + 2 * t, Entry(t, v.tilepal[t]), i);
    } else {
      var t := (i - chr0) / 32;
      TileByte(o, v, t, v.chr[t], i);
      TileByte(q, v, t, v.chr[t], i);
    }
  }

  lemma ShownBlock(q: seq<byte>, v: Video, u: Video)
    requires VideoOk(v) && VideoOk(u) && |v.pals| == |u.pals| && SameShown(v, u) && IsBlock(q, u)
    ensures IsBlock(q, v)
  {
    forall k | 0 <= k < 16 * |v.pals|
      ensures Has16(q, 2 * k, WordAt(v, k))
    {
      assert Has16(q, 2 * k, WordAt(u, k));
      assert SameTopBits(ColourAt(v, k / 16, k % 16), ColourAt(u, k / 16, k % 16));
    }
    assert forall t :: 0 <= t < |u.chr| && TileAt(q, u, t, u.chr[t]) ==> TileAt(q, v, t, v.chr[t]);
  }

  /** Two videos of one shape have the same block exactly if they agree in tiles, map and the colours' top bits. */
  lemma SameBlockIff(o: seq<byte>, q: seq<byte>, v: Video, u: Video)
    requires VideoOk(v) && VideoOk(u) && |v.pals| == |u.pals| && |v.chr| == |u.chr| && IsBlock(o, v) && IsBlock(q, u)
    ensures o == q <==> SameShown(v, u)
  {
    if o == q {
      BlockShows(o, v, u);
    }
    if SameShown(v, u) {
      ShownBlock(q, v, u);
      forall i | 0 <= i < |o|
        ensures o[i] == q[i]
      {
        SameByte(o, q, v, i);
      }
    }
  }
}
