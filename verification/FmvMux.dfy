/**
  The FMV2 clip file: header, interleaving and patching in tools/fmv_encode.c, and taking it apart again in
  tools/fmv_demux.c. A file is the sequence of its bytes.
*/
module FmvMux {
  import opened Arith
  import opened Bytes

  const TWO32 := 0x1_0000_0000

  // ---- little-endian words ----

  /** w16 and wr_u16le: the low 16 bits. */
  function W16(v: nat): (s: seq<byte>)
    ensures |s| == 2
  {
    [(v % 256) as byte, (v / 256 % 256) as byte]
  }

  /** w32 and wr_u32le: the low 32 bits. */
  function W32(v: nat): (s: seq<byte>)
    ensures |s| == 4
  {
    [(v % 256) as byte, (v / 256 % 256) as byte, (v / 0x1_0000 % 256) as byte, (v / 0x100_0000 % 256) as byte]
  }

  function Rd16(s: seq<byte>, i: nat): (v: nat)
    requires i + 2 <= |s|
    ensures v < 0x1_0000
  {
    s[i] as int + 256 * s[i + 1] as int
  }

  function Rd32(s: seq<byte>, i: nat): (v: nat)
    requires i + 4 <= |s|
    ensures v < TWO32
  {
    s[i] as int + 256 * s[i + 1] as int + 0x1_0000 * s[i + 2] as int + 0x100_0000 * s[i + 3] as int
  }

  /** A 16-bit field written at offset i. */
  predicate Has16(s: seq<byte>, i: nat, v: nat) {
    i + 2 <= |s| && s[i] == W16(v)[0] && s[i + 1] == W16(v)[1]
  }

  predicate Has32(s: seq<byte>, i: nat, v: nat) {
    i + 4 <= |s| && s[i] == W32(v)[0] && s[i + 1] == W32(v)[1] && s[i + 2] == W32(v)[2] && s[i + 3] == W32(v)[3]
  }

  /** Two digits in base 256, and in base 65536. */
  lemma TwoBytes(v: nat)
    ensures v % 0x1_0000 == v % 256 + 256 * (v / 256 % 256)
  {
    var k := v / 256 / 256;
    assert v == 0x1_0000 * k + 256 * (v / 256 % 256) + v % 256;
    DivUnique(v, k, 0x1_0000);
  }

  lemma TwoWords(v: nat)
    ensures v % TWO32 == v % 0x1_0000 + 0x1_0000 * (v / 0x1_0000 % 0x1_0000)
  {
    var k := v / 0x1_0000 / 0x1_0000;
    assert v == TWO32 * k + 0x1_0000 * (v / 0x1_0000 % 0x1_0000) + v % 0x1_0000;
    DivUnique(v, k, TWO32);
  }

  /** Reading what was written gives the value back, cut to the word. */
  lemma Reads16(s: seq<byte>, i: nat, v: nat)
    requires Has16(s, i, v)
    ensures Rd16(s, i) == v % 0x1_0000
    ensures s[i] as int == v % 256 && s[i + 1] as int == v / 256 % 256
  {
    TwoBytes(v);
  }

  lemma Reads32(s: seq<byte>, i: nat, v: nat)
    requires Has32(s, i, v)
    ensures Rd32(s, i) == v % TWO32
    ensures s[i] as int == v % 256 && s[i + 1] as int == v / 256 % 256
    ensures s[i + 2] as int == v / 0x1_0000 % 256 && s[i + 3] as int == v / 0x100_0000 % 256
  {
    var h := v / 0x1_0000;
    assert v / 256 / 256 == h && h / 256 == v / 0x100_0000;
    TwoBytes(v);
    TwoBytes(h);
    TwoWords(v);
  }

  // ---- the encoder ----

  /** The fixed parameters of a clip; `abytes` and `block` are the sizes of a frame's audio and video. */
  datatype Clip = Clip(w: nat, h: nat, fps: nat, ach: nat, rate: nat, abits: nat, abytes: nat, block: nat)

  predicate ClipOk(c: Clip) {
    && c.w < 0x1_0000 && c.h < 0x1_0000 && c.fps < 0x1_0000 && c.ach < 0x1_0000 && c.abits < 0x1_0000
    && c.rate < TWO32 && c.abytes < TWO32 && c.block > 0
  }

  /** hdr: the 32 bytes before the first frame. */
  function Header(c: Clip, nframes: nat): (s: seq<byte>)
    ensures |s| == 32
  {
    [0x46, 0x4D, 0x56, 0x32] + W16(c.w) + W16(c.h) + W16(c.fps) + W16(c.ach) + W32(nframes) +
    W32(c.rate) + W16(c.abits) + W16(0) + W32(c.abytes) + W32(0)
  }

  /** Sample byte i of the clip: silence once the audio has run out. */
  function Sample(audio: seq<byte>, i: nat): byte {
    if i < |audio| then audio[i] else 0
  }

  /** `out` is the audio of the first |out| bytes, padded with silence. */
  ghost predicate IsAudio(out: seq<byte>, audio: seq<byte>, start: nat) {
    forall i :: 0 <= i < |out| ==> out[i] == Sample(audio, start + i)
  }

  /** write_audio, reading from `pos`: the chunk written and the new position. */
  method WriteAudio(audio: seq<byte>, pos: nat, abytes: nat) returns (chunk: seq<byte>, pos': nat)
    requires pos <= |audio|
    ensures |chunk| == abytes && IsAudio(chunk, audio, pos)
    ensures forall i :: 0 <= i < abytes ==> chunk[i] == if pos + i < |audio| then audio[pos + i] else 0
    ensures pos' == if pos + abytes <= |audio| then pos + abytes else |audio|
  {
    var got := if pos + abytes <= |audio| then abytes else |audio| - pos;
    chunk := audio[pos..pos + got];
    pos' := pos + got;
    if got < abytes {
      chunk := chunk + seq(abytes - got, _ => 0);
    }
  }

  /** The frames of a clip: audio chunk and video block in turn. */
  ghost predicate IsBody(body: seq<byte>, c: Clip, blocks: seq<seq<byte>>, audio: seq<byte>, n: nat) {
    && n <= |blocks| && |body| == Times(n, c.abytes + c.block)
    && forall f :: 0 <= f < n ==> IsFrame(body, c, blocks, audio, f)
  }

  /** Frame f stands at its place. */
  ghost predicate IsFrame(body: seq<byte>, c: Clip, blocks: seq<seq<byte>>, audio: seq<byte>, f: nat)
    requires f < |blocks|
  {
    IsUnit(body, Times(f, c.abytes + c.block), c, blocks[f], audio, Times(f, c.abytes))
  }

  /** One frame's bytes start at `off`; its audio starts at byte `start` of the source. */
  ghost predicate IsUnit(body: seq<byte>, off: nat, c: Clip, block: seq<byte>, audio: seq<byte>, start: nat) {
    && off + c.abytes + c.block <= |body| && |block| == c.block
    && IsAudio(body[off..off + c.abytes], audio, start)
    && body[off + c.abytes..off + c.abytes + c.block] == block
  }

  lemma UnitStays(body: seq<byte>, more: seq<byte>, off: nat, c: Clip, block: seq<byte>, audio: seq<byte>, start: nat)
    requires IsUnit(body, off, c, block, audio, start)
    ensures IsUnit(body + more, off, c, block, audio, start)
  {
    assert (body + more)[off..off + c.abytes] == body[off..off + c.abytes];
    assert (body + more)[off + c.abytes..off + c.abytes + c.block] == body[off + c.abytes..off + c.abytes + c.block];
  }

  lemma BodyGrows(body: seq<byte>, chunk: seq<byte>, c: Clip, blocks: seq<seq<byte>>, audio: seq<byte>, n: nat)
    requires IsBody(body, c, blocks, audio, n) && n < |blocks| && |blocks[n]| == c.block
    requires |chunk| == c.abytes && IsAudio(chunk, audio, Times(n, c.abytes))
    ensures IsBody(body + chunk + blocks[n], c, blocks, audio, n + 1)
  {
    var next, u := body + chunk + blocks[n], c.abytes + c.block;
    assert next == body + (chunk + blocks[n]);
    var m := n + 1;
    forall f | 0 <= f < m
      ensures IsFrame(next, c, blocks, audio, f)
    {
      if f < n {
        assert IsFrame(body, c, blocks, audio, f);
        UnitStays(body, chunk + blocks[n], Times(f, u), c, blocks[f], audio, Times(f, c.abytes));
      } else {
        assert next[|body|..|body| + c.abytes] == chunk;
        assert next[|body| + c.abytes..|body| + c.abytes + c.block] == blocks[n];
      }
    }
  }

  /** Writing over four bytes of a file. */
  function Patch(s: seq<byte>, i: nat, w: seq<byte>): (t: seq<byte>)
    requires |w| == 4 && i + 4 <= |s|
    ensures |t| == |s| && (forall k :: 0 <= k < 4 ==> t[i + k] == w[k])
    ensures forall k :: 0 <= k < |s| && !(i <= k < i + 4) ==> t[k] == s[k]
  {
    s[..i] + w + s[i + 4..]
  }

  /** The file of a finished clip. */
  ghost predicate IsClip(o: seq<byte>, c: Clip, blocks: seq<seq<byte>>, audio: seq<byte>) {
    |o| >= 32 && o[..32] == Header(c, |blocks|) && IsBody(o[32..], c, blocks, audio, |blocks|)
  }

  /** A clip byte by byte: frame f starts behind the header and f frames, with its audio, silent where the source has run
      out, and then its video block. */
  lemma ClipLayout(o: seq<byte>, c: Clip, blocks: seq<seq<byte>>, audio: seq<byte>, f: nat, i: nat)
    requires IsClip(o, c, blocks, audio) && f < |blocks| && i < c.abytes + c.block
    ensures |o| == 32 + Times(|blocks|, c.abytes + c.block)
    ensures |blocks[f]| == c.block && 32 + Times(f, c.abytes + c.block) + i < |o|
    ensures o[32 + Times(f, c.abytes + c.block) + i] ==
            if i < c.abytes then (if Times(f, c.abytes) + i < |audio| then audio[Times(f, c.abytes) + i] else 0)
            else blocks[f][i - c.abytes]
  {
    var body, off := o[32..], Times(f, c.abytes + c.block);
    assert IsFrame(body, c, blocks, audio, f);
    if i < c.abytes {
      assert body[off..off + c.abytes][i] == body[off + i];
    } else {
      assert body[off + c.abytes..off + c.abytes + c.block][i - c.abytes] == body[off + i];
    }
  }

  /** The encoding loop of main: header with a frame count of 0, frames, then the count patched in at byte 12. */
  method Mux(c: Clip, blocks: seq<seq<byte>>, audio: seq<byte>) returns (o: seq<byte>)
    requires forall f :: 0 <= f < |blocks| ==> |blocks[f]| == c.block
    ensures IsClip(o, c, blocks, audio)
  {
    var head := Header(c, 0);
    o := head;
    ghost var body: seq<byte> := [];
    var nf, pos := 0, 0;
    while nf < |blocks|
      invariant nf <= |blocks| && o == head + body && IsBody(body, c, blocks, audio, nf)
      invariant pos == Least(Times(nf, c.abytes), |audio|)
    {
      var chunk;
      chunk, pos := WriteChunk(audio, pos, c, nf);
      BodyGrows(body, chunk, c, blocks, audio, nf);
      o := o + chunk + blocks[nf];
      body := body + chunk + blocks[nf];
      nf := nf + 1;
    }
    o := Patched(c, o, body, nf);
  }

  /** fseek to byte 12, and the frame count. */
  method Patched(c: Clip, o: seq<byte>, ghost body: seq<byte>, n: nat) returns (o': seq<byte>)
    requires o == Header(c, 0) + body
    ensures |o'| >= 32 && o'[..32] == Header(c, n) && o'[32..] == body
  {
    HeaderPatched(c, body, n);
    o' := Patch(o, 12, W32(n));
  }

  method WriteChunk(audio: seq<byte>, pos: nat, c: Clip, nf: nat) returns (chunk: seq<byte>, pos': nat)
    requires pos == Least(Times(nf, c.abytes), |audio|)
    ensures |chunk| == c.abytes && IsAudio(chunk, audio, Times(nf, c.abytes))
    ensures pos' == Least(Times(nf + 1, c.abytes), |audio|)
  {
    chunk, pos' := WriteAudio(audio, pos, c.abytes);
    if pos < Times(nf, c.abytes) {
      forall i | 0 <= i < |chunk|
        ensures chunk[i] == Sample(audio, Times(nf, c.abytes) + i)
      {
        assert chunk[i] == Sample(audio, pos + i);
      }
    }
  }

  lemma HeaderPatched(c: Clip, body: seq<byte>, n: nat)
    ensures Patch(Header(c, 0) + body, 12, W32(n))[..32] == Header(c, n)
    ensures Patch(Header(c, 0) + body, 12, W32(n))[32..] == body
  {
    var o := Header(c, 0) + body;
    var h := [0x46, 0x4D, 0x56, 0x32] + W16(c.w) + W16(c.h) + W16(c.fps) + W16(c.ach);
    var t := W32(c.rate) + W16(c.abits) + W16(0) + W32(c.abytes) + W32(0);
    assert Header(c, 0) == h + W32(0) + t && Header(c, n) == h + W32(n) + t;
    assert o[..12] == h && o[16..] == t + body;
  }
}
