/**
  Splitting a muxed clip into FMV1 video and a WAV file (main of tools/fmv_demux.c), for any input bytes, and the round
  trip through tools/fmv_encode.c.
*/
module FmvDemux {
  import opened Arith
  import opened Bytes
  import opened FmvMux

  datatype Output = NotFmv2 | Demuxed(video: seq<byte>, audio: seq<byte>)

  /** The 16-byte FMV1 header. */
  function Fmv1Header(w: nat, h: nat, fps: nat, nframes: nat): (s: seq<byte>)
    ensures |s| == 16
  {
    [0x46, 0x4D, 0x56, 0x31] + W16(w) + W16(h) + W16(fps) + W16(0) + W32(nframes)
  }

  /** The canonical 44-byte WAV header, for `data` bytes of samples. */
  function WavHeader(ach: nat, rate: nat, abits: nat, data: nat): (s: seq<byte>)
    ensures |s| == 44
  {
    WavStart(data) + WavFormat(ach, rate, abits) + W32(data)
  }

  function WavStart(data: nat): (s: seq<byte>)
    ensures |s| == 8
  {
    [0x52, 0x49, 0x46, 0x46] + W32(36 + data)
  }

  function WavFormat(ach: nat, rate: nat, abits: nat): (s: seq<byte>)
    ensures |s| == 32
  {
    var align := ach * (abits / 8) % 0x1_0000;
    FormatBytes(ach, rate, abits, align, rate * align)
  }

  function FormatBytes(ach: nat, rate: nat, abits: nat, align: nat, speed: nat): (s: seq<byte>)
    ensures |s| == 32
  {
    [0x57, 0x41, 0x56, 0x45, 0x66, 0x6D, 0x74, 0x20] + W32(16) + W16(1) + W16(ach) + W32(rate) + W32(speed) +
    W16(align) + W16(abits) + [0x64, 0x61, 0x74, 0x61]
  }

  /** size bytes at i of `out` are those at j of `input`. */
  ghost predicate TakenAt(out: seq<byte>, i: nat, input: seq<byte>, j: nat, size: nat) {
    i + size <= |out| && j + size <= |input| && out[i..i + size] == input[j..j + size]
  }

  /** Piece f of `out` comes from frame f. */
  ghost predicate TakenFrom(out: seq<byte>, input: seq<byte>, unit: nat, skip: nat, size: nat, f: nat) {
    TakenAt(out, Times(f, size), input, 32 + Times(f, unit) + skip, size)
  }

  /** `out` is a piece of each of the first n frames: `size` bytes from `skip` on. */
  ghost predicate IsTaken(out: seq<byte>, input: seq<byte>, n: nat, unit: nat, skip: nat, size: nat) {
    && |out| == Times(n, size)
    && forall f :: 0 <= f < n ==> TakenFrom(out, input, unit, skip, size, f)
  }

  /** n is the number of complete frames, at most `nfr`. */
  predicate Complete(n: nat, nfr: nat, unit: nat, len: nat) {
    n <= nfr && 32 + Times(n, unit) <= len && (n < nfr ==> len < 32 + Times(n + 1, unit))
  }

  lemma TakenStays(out: seq<byte>, more: seq<byte>, i: nat, input: seq<byte>, j: nat, size: nat)
    requires TakenAt(out, i, input, j, size)
    ensures TakenAt(out + more, i, input, j, size)
  {
    assert (out + more)[i..i + size] == out[i..i + size];
  }

  lemma TakeOne(out: seq<byte>, input: seq<byte>, n: nat, unit: nat, skip: nat, size: nat, piece: seq<byte>)
    requires IsTaken(out, input, n, unit, skip, size) && 32 + Times(n, unit) + skip + size <= |input|
    requires piece == input[32 + Times(n, unit) + skip..32 + Times(n, unit) + skip + size]
    ensures IsTaken(out + piece, input, n + 1, unit, skip, size)
  {
    var m := n + 1;
    assert (out + piece)[|out|..|out| + size] == piece;
    forall f | 0 <= f < m
      ensures TakenFrom(out + piece, input, unit, skip, size, f)
    {
      if f < n {
        assert TakenFrom(out, input, unit, skip, size, f);
        TakenStays(out, piece, Times(f, size), input, 32 + Times(f, unit) + skip, size);
      }
    }
  }

  /** What the demuxer makes of any input: the fields it copies, and the complete frames. */
  ghost predicate Splits(input: seq<byte>, block: nat, n: nat, r: Output) {
    if |input| < 32 || input[..4] != [0x46, 0x4D, 0x56, 0x32] then r.NotFmv2?
    else
      var abpf, nfr := Rd32(input, 24), Rd32(input, 12);
      && r.Demuxed? && Complete(n, nfr, abpf + block, |input|)
      && |r.video| >= 16 && |r.audio| >= 44
      && r.video[..16] == Fmv1Header(Rd16(input, 4), Rd16(input, 6), Rd16(input, 8), nfr)
      && r.audio[..44] == WavHeader(Rd16(input, 10), Rd32(input, 16), Rd16(input, 20), n * abpf % TWO32)
      && IsTaken(r.video[16..], input, n, abpf + block, abpf, block)
      && IsTaken(r.audio[44..], input, n, abpf + block, 0, abpf)
  }

  /** fread of `size` bytes: what is there, if less is left. */
  method Fread(input: seq<byte>, pos: nat, size: nat) returns (got: seq<byte>, pos': nat)
    requires pos <= |input|
    ensures pos' == pos + |got| && pos' <= |input| && got == input[pos..pos']
    ensures |got| == if pos + size <= |input| then size else |input| - pos
  {
    pos' := if pos + size <= |input| then pos + size else |input|;
    got := input[pos..pos'];
  }

  /** Both parts of the frame at `pos`, or the news that it is incomplete. */
  method ReadFrame(input: seq<byte>, pos: nat, abpf: nat, block: nat)
    returns (ok: bool, aud: seq<byte>, vid: seq<byte>)
    requires pos <= |input|
    ensures ok <==> pos + (abpf + block) <= |input|
    ensures ok ==> aud == input[pos..pos + abpf] && vid == input[pos + abpf..pos + abpf + block]
  {
    var at;
    vid := [];
    aud, at := Fread(input, pos, abpf);
    if |aud| != abpf {
      return false, aud, vid;
    }
    vid, at := Fread(input, at, block);
    ok := |vid| == block;
  }

  /** The demux loop: a frame is written only if both its parts are complete. */
  method DemuxFrames(input: seq<byte>, nfr: nat, abpf: nat, block: nat)
    returns (video: seq<byte>, audio: seq<byte>, done: nat)
    requires |input| >= 32 && block > 0
    ensures Complete(done, nfr, abpf + block, |input|)
    ensures IsTaken(video, input, done, abpf + block, abpf, block)
    ensures IsTaken(audio, input, done, abpf + block, 0, abpf)
  {
    video, audio, done := [], [], 0;
    var pos, unit := 32, abpf + block;
    while done < nfr
      invariant done <= nfr && pos == 32 + Times(done, unit) <= |input|
      invariant IsTaken(video, input, done, unit, abpf, block)
      invariant IsTaken(audio, input, done, unit, 0, abpf)
    {
      var ok, aud, vid := ReadFrame(input, pos, abpf, block);
      if !ok {
        break;
      }
      TakeOne(audio, input, done, unit, 0, abpf, aud);
      TakeOne(video, input, done, unit, abpf, block, vid);
      audio := audio + aud;
      video := video + vid;
      done := done + 1;
      pos := pos + unit;
    }
  }

  lemma WavPatched(ach: nat, rate: nat, abits: nat, data: nat, body: seq<byte>)
    ensures var o := Patch(WavHeader(ach, rate, abits, 0) + body, 4, W32(36 + data));
            Patch(o, 40, W32(data)) == WavHeader(ach, rate, abits, data) + body
  {
    var m := WavFormat(ach, rate, abits);
    var o := WavHeader(ach, rate, abits, 0) + body;
    var riff: seq<byte> := [0x52, 0x49, 0x46, 0x46];
    assert o == riff + W32(36) + m + W32(0) + body;
    assert o[..4] == riff && o[8..] == m + W32(0) + body;
    var p := Patch(o, 4, W32(36 + data));
    assert p[..40] == riff + W32(36 + data) + m && p[44..] == body;
  }

  /** main: header checks, both headers, the frames, and the sizes patched into the WAV file; n is frames_done. */
  method Demux(input: seq<byte>, block: nat) returns (r: Output, n: nat)
    requires block > 0
    ensures Splits(input, block, n, r)
  {
    n := 0;
    if |input| < 32 || input[..4] != [0x46, 0x4D, 0x56, 0x32] {
      return NotFmv2, 0;
    }
    var w, h, fps, ach := Rd16(input, 4), Rd16(input, 6), Rd16(input, 8), Rd16(input, 10);
    var nfr, arate, abits, abpf := Rd32(input, 12), Rd32(input, 16), Rd16(input, 20), Rd32(input, 24);
    var video, audio, done := DemuxFrames(input, nfr, abpf, block);
    var outv := VideoFile(w, h, fps, nfr, video);
    var outa := WavFile(ach, arate, abits, done * abpf % TWO32, audio);
    r, n := Demuxed(outv, outa), done;
  }

  method VideoFile(w: nat, h: nat, fps: nat, nfr: nat, video: seq<byte>) returns (o: seq<byte>)
    ensures |o| >= 16 && o[..16] == Fmv1Header(w, h, fps, nfr) && o[16..] == video
  {
    var head := Fmv1Header(w, h, fps, nfr);
    o := head + video;
  }

  /** The WAV file, with its two sizes patched in once the samples are written. */
  method WavFile(ach: nat, rate: nat, abits: nat, data: nat, audio: seq<byte>) returns (o: seq<byte>)
    ensures |o| >= 44 && o[..44] == WavHeader(ach, rate, abits, data) && o[44..] == audio
  {
    WavPatched(ach, rate, abits, data, audio);
    var head := WavHeader(ach, rate, abits, data);
    o := Patch(WavHeader(ach, rate, abits, 0) + audio, 4, W32(36 + data));
    o := Patch(o, 40, W32(data));
    assert o == head + audio;
  }

  // ---- the round trip ----

  /** A 16-bit field of the header, read from the file. */
  lemma FileField16(o: seq<byte>, h: seq<byte>, i: nat, v: nat)
    requires |h| == 32 <= |o| && o[..32] == h && Has16(h, i, v) && v < 0x1_0000
    ensures Rd16(o, i) == v
  {
    assert h[i] == o[i] && h[i + 1] == o[i + 1];
    Reads16(o, i, v);
  }

  lemma FileField32(o: seq<byte>, h: seq<byte>, i: nat, v: nat)
    requires |h| == 32 <= |o| && o[..32] == h && Has32(h, i, v) && v < TWO32
    ensures Rd32(o, i) == v
  {
    assert h[i] == o[i] && h[i + 1] == o[i + 1] && h[i + 2] == o[i + 2] && h[i + 3] == o[i + 3];
    Reads32(o, i, v);
  }

  /** The demuxer reads back what hdr wrote. */
  lemma HeaderFields(o: seq<byte>, h: seq<byte>, c: Clip, n: nat)
    requires |o| >= 32 && o[..32] == h && h == Header(c, n) && ClipOk(c) && n < TWO32
    ensures o[..4] == [0x46, 0x4D, 0x56, 0x32]
    ensures Rd16(o, 4) == c.w && Rd16(o, 6) == c.h && Rd16(o, 8) == c.fps && Rd16(o, 10) == c.ach
    ensures Rd32(o, 12) == n && Rd32(o, 16) == c.rate && Rd16(o, 20) == c.abits && Rd32(o, 24) == c.abytes
  {
    LowFields(h, c, n);
    HighFields(h, c, n);
    assert o[..4] == h[..4];
    FileField16(o, h, 4, c.w);
    FileField16(o, h, 6, c.h);
    FileField16(o, h, 8, c.fps);
    FileField16(o, h, 10, c.ach);
    FileField32(o, h, 12, n);
    FileField32(o, h, 16, c.rate);
    FileField16(o, h, 20, c.abits);
    FileField32(o, h, 24, c.abytes);
  }

  lemma LowFields(h: seq<byte>, c: Clip, n: nat)
    requires h == Header(c, n)
    ensures h[..4] == [0x46, 0x4D, 0x56, 0x32]
    ensures Has16(h, 4, c.w) && Has16(h, 6, c.h) && Has16(h, 8, c.fps) && Has16(h, 10, c.ach)
  {
  }

  lemma HighFields(h: seq<byte>, c: Clip, n: nat)
    requires h == Header(c, n)
    ensures Has32(h, 12, n) && Has32(h, 16, c.rate) && Has16(h, 20, c.abits) && Has32(h, 24, c.abytes)
  {
  }

  lemma TakenOf(out: seq<byte>, input: seq<byte>, n: nat, unit: nat, skip: nat, size: nat, f: nat)
    requires IsTaken(out, input, n, unit, skip, size) && f < n
    ensures TakenAt(out, Times(f, size), input, 32 + Times(f, unit) + skip, size)
  {
    assert TakenFrom(out, input, unit, skip, size, f);
  }

  lemma UnitOf(body: seq<byte>, c: Clip, blocks: seq<seq<byte>>, audio: seq<byte>, f: nat)
    requires IsBody(body, c, blocks, audio, |blocks|) && f < |blocks|
    ensures IsUnit(body, Times(f, c.abytes + c.block), c, blocks[f], audio, Times(f, c.abytes))
  {
    assert IsFrame(body, c, blocks, audio, f);
  }

  lemma SliceOfTail(o: seq<byte>, i: nat, size: nat)
    requires 32 + i + size <= |o|
    ensures o[32..][i..i + size] == o[32 + i..32 + i + size]
  {
  }

  /** A byte of a chunk taken from the file, back in the audio source. */
  lemma ChunkByte(out: seq<byte>, at: nat, o: seq<byte>, off: nat, c: Clip, block: seq<byte>, audio: seq<byte>, i: nat)
    requires |o| >= 32 && TakenAt(out, at, o, 32 + off, c.abytes) && IsUnit(o[32..], off, c, block, audio, at)
    requires i < c.abytes
    ensures out[at + i] == Sample(audio, at + i)
  {
    SliceOfTail(o, off, c.abytes);
    assert out[at + i] == out[at..at + c.abytes][i];
  }

  lemma UnitByte(out: seq<byte>, at: nat, o: seq<byte>, off: nat, c: Clip, block: seq<byte>, audio: seq<byte>, i: nat)
    requires |o| >= 32 && off >= 32 && TakenAt(out, at, o, off, c.abytes) && i < c.abytes
    requires IsUnit(o[32..], off - 32, c, block, audio, at)
    ensures at + i < |out| && out[at + i] == Sample(audio, at + i)
  {
    ChunkByte(out, at, o, off - 32, c, block, audio, i);
  }

  lemma ChunkBack(out: seq<byte>, o: seq<byte>, c: Clip, blocks: seq<seq<byte>>, audio: seq<byte>, f: nat, i: nat)
    requires |o| >= 32 && IsBody(o[32..], c, blocks, audio, |blocks|) && f < |blocks| && i < c.abytes
    requires IsTaken(out, o, |blocks|, c.abytes + c.block, 0, c.abytes)
    ensures Times(f, c.abytes) + i < |out|
    ensures out[Times(f, c.abytes) + i] == Sample(audio, Times(f, c.abytes) + i)
  {
    var body := o[32..];
    UnitOf(body, c, blocks, audio, f);
    TakenOf(out, o, |blocks|, c.abytes + c.block, 0, c.abytes, f);
    UnitByte(out, Times(f, c.abytes), o, 32 + Times(f, c.abytes + c.block) + 0, c, blocks[f], audio, i);
  }

  /** Block f stands at its place in the video output. */
  ghost predicate BlockAt(out: seq<byte>, size: nat, blocks: seq<seq<byte>>, f: nat)
    requires f < |blocks|
  {
    Times(f, size) + size <= |out| && out[Times(f, size)..Times(f, size) + size] == blocks[f]
  }

  /** The video output is the blocks, one after the other. */
  lemma VideoBack(out: seq<byte>, o: seq<byte>, c: Clip, blocks: seq<seq<byte>>, audio: seq<byte>)
    requires |o| >= 32 && IsBody(o[32..], c, blocks, audio, |blocks|)
    requires IsTaken(out, o, |blocks|, c.abytes + c.block, c.abytes, c.block)
    ensures forall f :: 0 <= f < |blocks| ==> BlockAt(out, c.block, blocks, f)
  {
    forall f | 0 <= f < |blocks|
      ensures BlockAt(out, c.block, blocks, f)
    {
      UnitOf(o[32..], c, blocks, audio, f);
      TakenOf(out, o, |blocks|, c.abytes + c.block, c.abytes, c.block, f);
      SliceOfTail(o, Times(f, c.abytes + c.block) + c.abytes, c.block);
    }
  }

  /** The audio output is the source, truncated or padded with silence. */
  lemma AudioBack(out: seq<byte>, o: seq<byte>, c: Clip, blocks: seq<seq<byte>>, audio: seq<byte>)
    requires |o| >= 32 && IsBody(o[32..], c, blocks, audio, |blocks|)
    requires IsTaken(out, o, |blocks|, c.abytes + c.block, 0, c.abytes)
    ensures |out| == Times(|blocks|, c.abytes) && IsAudio(out, audio, 0)
    ensures forall i :: 0 <= i < |out| ==> out[i] == if i < |audio| then audio[i] else 0
  {
    forall i | 0 <= i < |out|
      ensures out[i] == Sample(audio, i)
    {
      if c.abytes == 0 {
        TimesIsProduct(|blocks|, 0);
        assert false;
      } else {
        var f := i / c.abytes;
        TimesDivMod(i, c.abytes);
        TimesMonotone(|blocks|, f, c.abytes);
        ChunkBack(out, o, c, blocks, audio, f, i % c.abytes);
      }
    }
  }

  /** The demuxer's view of a muxed clip, with the fields it read replaced by what hdr wrote. */
  ghost predicate SplitsClip(o: seq<byte>, c: Clip, nfr: nat, n: nat, r: Output) {
    && r.Demuxed? && Complete(n, nfr, c.abytes + c.block, |o|) && |r.video| >= 16 && |r.audio| >= 44
    && IsTaken(r.video[16..], o, n, c.abytes + c.block, c.abytes, c.block)
    && IsTaken(r.audio[44..], o, n, c.abytes + c.block, 0, c.abytes)
  }

  lemma FieldsRead(o: seq<byte>, c: Clip, nfr: nat, n: nat, r: Output)
    requires ClipOk(c) && nfr < TWO32 && |o| >= 32 && o[..32] == Header(c, nfr) && Splits(o, c.block, n, r)
    ensures SplitsClip(o, c, nfr, n, r)
    ensures r.video[..16] == Fmv1Header(c.w, c.h, c.fps, nfr)
    ensures r.audio[..44] == WavHeader(c.ach, c.rate, c.abits, n * c.abytes % TWO32)
  {
    HeaderFields(o, o[..32], c, nfr);
  }

  /** Demuxing a muxed clip gives back the header fields, every video block and the audio, truncated or padded. */
  lemma RoundTrip(o: seq<byte>, c: Clip, blocks: seq<seq<byte>>, audio: seq<byte>, n: nat, r: Output)
    requires ClipOk(c) && |blocks| < TWO32 && IsClip(o, c, blocks, audio) && Splits(o, c.block, n, r)
    ensures n == |blocks| && r.Demuxed? && |r.video| >= 16 && |r.audio| >= 44
    ensures r.video[..16] == Fmv1Header(c.w, c.h, c.fps, n)
    ensures r.audio[..44] == WavHeader(c.ach, c.rate, c.abits, n * c.abytes % TWO32)
    ensures |r.video[16..]| == Times(n, c.block)
    ensures forall f :: 0 <= f < n ==> BlockAt(r.video[16..], c.block, blocks, f)
    ensures |r.audio[44..]| == Times(n, c.abytes) && IsAudio(r.audio[44..], audio, 0)
    ensures forall i :: 0 <= i < |r.audio[44..]| ==> r.audio[44..][i] == if i < |audio| then audio[i] else 0
  {
    FieldsRead(o, c, |blocks|, n, r);
    FramesBack(o, c, blocks, audio, n, r.video[16..], r.audio[44..]);
  }

  lemma FramesBack(
    o: seq<byte>, c: Clip, blocks: seq<seq<byte>>, audio: seq<byte>, n: nat, video: seq<byte>, sound: seq<byte>)
    requires |o| >= 32 && IsBody(o[32..], c, blocks, audio, |blocks|)
    requires Complete(n, |blocks|, c.abytes + c.block, |o|)
    requires IsTaken(video, o, n, c.abytes + c.block, c.abytes, c.block)
    requires IsTaken(sound, o, n, c.abytes + c.block, 0, c.abytes)
    ensures n == |blocks| && |video| == Times(n, c.block) && |sound| == Times(n, c.abytes)
    ensures (forall f :: 0 <= f < n ==> BlockAt(video, c.block, blocks, f)) && IsAudio(sound, audio, 0)
    ensures forall i :: 0 <= i < |sound| ==> sound[i] == if i < |audio| then audio[i] else 0
  {
    AllComplete(o, c, blocks, audio, n);
    VideoBack(video, o, c, blocks, audio);
    AudioBack(sound, o, c, blocks, audio);
  }

  lemma AllComplete(o: seq<byte>, c: Clip, blocks: seq<seq<byte>>, audio: seq<byte>, n: nat)
    requires |o| >= 32 && IsBody(o[32..], c, blocks, audio, |blocks|)
    requires Complete(n, |blocks|, c.abytes + c.block, |o|)
    ensures n == |blocks|
  {
    TimesMonotone(n + 1, |blocks|, c.abytes + c.block);
  }

  lemma WavSizes(w: seq<byte>, ach: nat, rate: nat, abits: nat, data: nat)
    requires |w| >= 44 && w[..44] == WavHeader(ach, rate, abits, data)
    ensures Rd32(w, 4) == (36 + data) % TWO32 && Rd32(w, 40) == data % TWO32
  {
    var h := WavHeader(ach, rate, abits, data);
    assert h[4..8] == W32(36 + data) && h[40..44] == W32(data);
    assert forall i :: 0 <= i < 44 ==> w[i] == h[i];
    assert Has32(w, 4, 36 + data) && Has32(w, 40, data);
    Reads32(w, 4, 36 + data);
    Reads32(w, 40, data);
  }

  lemma SizesIff(w: seq<byte>, ach: nat, rate: nat, abits: nat, total: nat)
    requires |w| == 44 + total && w[..44] == WavHeader(ach, rate, abits, total % TWO32)
    ensures Rd32(w, 40) == |w| - 44 && Rd32(w, 4) == |w| - 8 <==> |w| - 8 < TWO32
  {
    WavSizes(w, ach, rate, abits, total % TWO32);
    SizesFit(total, Rd32(w, 4), Rd32(w, 40));
  }

  lemma SizesFit(total: nat, riff: nat, data: nat)
    requires riff == (36 + total % TWO32) % TWO32 && data == total % TWO32 % TWO32
    ensures data == total && riff == 36 + total <==> 36 + total < TWO32
  {
  }

  /** How many frames an input holds, by its header and its length. */
  function Frames(input: seq<byte>, block: nat): nat
    requires |input| >= 32 && block > 0
  {
    TimesDivMod(|input| - 32, Rd32(input, 24) + block);
    var fit := (|input| - 32) / (Rd32(input, 24) + block);
    if Rd32(input, 12) < fit then Rd32(input, 12) else fit
  }

  lemma CompleteIs(n: nat, nfr: nat, unit: nat, len: nat)
    requires unit > 0 && len >= 32 && Complete(n, nfr, unit, len)
    ensures n == if nfr < (len - 32) / unit then nfr else (len - 32) / unit
  {
    var fit := (len - 32) / unit;
    TimesIsProduct(n, unit);
    TimesIsProduct(n + 1, unit);
    DivBounds(len - 32, unit);
    if n < nfr {
      assert (n + 1) * unit == n * unit + unit;
      DivUnique(len - 32, n, unit);
    } else {
      assert (fit + 1) * unit == fit * unit + unit;
      MulStrict(n, fit + 1, unit);
    }
  }

  /** The demuxer splits exactly the frames the input holds. */
  lemma SplitsAllFrames(input: seq<byte>, block: nat, n: nat, r: Output)
    requires block > 0 && Splits(input, block, n, r) && r.Demuxed?
    ensures |input| >= 32 && n == Frames(input, block)
    ensures n == Least(Rd32(input, 12), (|input| - 32) / (Rd32(input, 24) + block))
  {
    TimesDivMod(|input| - 32, Rd32(input, 24) + block);
    CompleteIs(n, Rd32(input, 12), Rd32(input, 24) + block, |input|);
  }

  /** The patched sizes are the numbers of bytes written exactly if the audio of the frames the input holds, with 36 bytes
      of header, is counted in 32 bits. */
  lemma SizesMatchIff(input: seq<byte>, block: nat, n: nat, r: Output)
    requires block > 0 && Splits(input, block, n, r) && r.Demuxed?
    ensures |input| >= 32 && |r.audio| == 44 + Frames(input, block) * Rd32(input, 24)
    ensures Rd32(r.audio, 40) == |r.audio| - 44 && Rd32(r.audio, 4) == |r.audio| - 8 <==>
            36 + Frames(input, block) * Rd32(input, 24) < TWO32
  {
    var abpf := Rd32(input, 24);
    SplitsAllFrames(input, block, n, r);
    TimesIsProduct(n, abpf);
    assert |r.audio[44..]| == n * abpf;
    SizesIff(r.audio, Rd16(input, 10), Rd32(input, 16), Rd16(input, 20), n * abpf);
  }

  lemma Fmv1Count(v: seq<byte>, w: nat, h: nat, fps: nat, nfr: nat)
    requires |v| >= 16 && v[..16] == Fmv1Header(w, h, fps, nfr) && nfr < TWO32
    ensures Rd32(v, 12) == nfr
  {
    LastField(v, [0x46, 0x4D, 0x56, 0x31] + W16(w) + W16(h) + W16(fps) + W16(0), nfr);
    FieldRead(v, 12, nfr);
  }

  lemma FieldRead(v: seq<byte>, i: nat, x: nat)
    requires Has32(v, i, x) && x < TWO32
    ensures Rd32(v, i) == x
  {
    Reads32(v, i, x);
    DivUnique(x, 0, TWO32);
  }

  lemma LastField(v: seq<byte>, head: seq<byte>, x: nat)
    requires |v| >= |head| + 4 && v[..|head| + 4] == head + W32(x)
    ensures Has32(v, |head|, x)
  {
    var w := W32(x);
    TailByte(v, head, w, 0);
    TailByte(v, head, w, 1);
    TailByte(v, head, w, 2);
    TailByte(v, head, w, 3);
  }

  lemma TailByte(v: seq<byte>, head: seq<byte>, w: seq<byte>, k: nat)
    requires |v| >= |head| + |w| && v[..|head| + |w|] == head + w && k < |w|
    ensures v[|head| + k] == w[k]
  {
    assert v[|head| + k] == v[..|head| + |w|][|head| + k];
  }

  lemma CompleteIff(n: nat, nfr: nat, unit: nat, len: nat)
    requires Complete(n, nfr, unit, len)
    ensures n == nfr <==> len >= 32 + Times(nfr, unit)
  {
    TimesMonotone(n + 1, nfr, unit);
  }

  /** The FMV1 header counts the frames that follow it exactly if the input held all it announced. */
  lemma CountIsTrueIff(input: seq<byte>, block: nat, n: nat, r: Output)
    requires Splits(input, block, n, r) && r.Demuxed?
    ensures |r.video| >= 16 && |r.video[16..]| == Times(n, block)
    ensures Rd32(r.video, 12) == n <==> |input| >= 32 + Times(Rd32(input, 12), Rd32(input, 24) + block)
  {
    CountRead(input, block, n, r);
    CompleteIff(n, Rd32(input, 12), Rd32(input, 24) + block, |input|);
  }

  lemma CountRead(input: seq<byte>, block: nat, n: nat, r: Output)
    requires Splits(input, block, n, r) && r.Demuxed?
    ensures |r.video| >= 16 && Rd32(r.video, 12) == Rd32(input, 12)
  {
    Fmv1Count(r.video, Rd16(input, 4), Rd16(input, 6), Rd16(input, 8), Rd32(input, 12));
  }

  predicate SameByteAt(a: seq<byte>, i: nat, b: seq<byte>, j: nat) {
    i < |a| && j < |b| && a[i] == b[j]
  }

  /** The outputs byte by byte: behind their headers, byte i of the audio part of frame f of the input and byte j of its
      video part, in frame order and nothing else. */
  lemma SplitLayout(input: seq<byte>, block: nat, n: nat, r: Output, f: nat, i: nat, j: nat)
    requires Splits(input, block, n, r) && r.Demuxed? && f < n
    ensures |input| >= 32 && |r.audio| == 44 + Times(n, Rd32(input, 24)) && |r.video| == 16 + Times(n, block)
    ensures FrameCopied(input, Rd32(input, 24), block, r.audio, r.video, f, i, j)
  {
    var abpf := SplitsTaken(input, block, n, r);
    FrameBytes(input, abpf, block, n, r.audio, r.video, f, i, j);
  }

  /** Byte i of the audio of frame f and byte j of its block have been copied to their places. */
  predicate FrameCopied(
    input: seq<byte>, abpf: nat, block: nat, audio: seq<byte>, video: seq<byte>, f: nat, i: nat, j: nat) {
    var at := 32 + Times(f, abpf + block);
    && (i < abpf ==> SameByteAt(audio, 44 + Times(f, abpf) + i, input, at + i))
    && (j < block ==> SameByteAt(video, 16 + Times(f, block) + j, input, at + abpf + j))
  }

  lemma FrameBytes(
    input: seq<byte>, abpf: nat, block: nat, n: nat, audio: seq<byte>, video: seq<byte>, f: nat, i: nat, j: nat)
    requires |audio| >= 44 && IsTaken(audio[44..], input, n, abpf + block, 0, abpf) && f < n
    requires |video| >= 16 && IsTaken(video[16..], input, n, abpf + block, abpf, block)
    ensures FrameCopied(input, abpf, block, audio, video, f, i, j)
  {
    if i < abpf {
      TakenByte(audio, 44, input, n, abpf + block, 0, abpf, f, i);
    }
    if j < block {
      TakenByte(video, 16, input, n, abpf + block, abpf, block, f, j);
    }
  }

  lemma SplitsTaken(input: seq<byte>, block: nat, n: nat, r: Output) returns (abpf: nat)
    requires Splits(input, block, n, r) && r.Demuxed?
    ensures |input| >= 32 && abpf == Rd32(input, 24) && |r.video| >= 16 && |r.audio| >= 44
    ensures |r.audio| == 44 + Times(n, abpf) && |r.video| == 16 + Times(n, block)
    ensures IsTaken(r.video[16..], input, n, abpf + block, abpf, block)
    ensures IsTaken(r.audio[44..], input, n, abpf + block, 0, abpf)
  {
    abpf := Rd32(input, 24);
  }

  lemma TakenByte(
    out: seq<byte>, head: nat, input: seq<byte>, n: nat, unit: nat, skip: nat, size: nat, f: nat, i: nat)
    requires head <= |out| && IsTaken(out[head..], input, n, unit, skip, size) && f < n && i < size
    ensures SameByteAt(out, head + Times(f, size) + i, input, 32 + Times(f, unit) + skip + i)
  {
    var body, at, from := out[head..], Times(f, size), 32 + Times(f, unit) + skip;
    TakenOf(body, input, n, unit, skip, size, f);
    SameSlice(body, at, input, from, size, i);
  }

  lemma SameSlice(a: seq<byte>, at: nat, b: seq<byte>, from: nat, size: nat, i: nat)
    requires TakenAt(a, at, b, from, size) && i < size
    ensures SameByteAt(a, at + i, b, from + i)
  {
    assert a[at..at + size][i] == b[from..from + size][i];
  }

  // ---- the fields of both outputs ----

  /** The bytes of `w` stand at the end of the first |head| + |w| bytes of v. */
  lemma Piece(v: seq<byte>, head: seq<byte>, w: seq<byte>)
    requires |v| >= |head| + |w| && v[..|head| + |w|] == head + w
    ensures v[..|head|] == head && v[|head|..|head| + |w|] == w
  {
    assert (head + w)[..|head|] == head && (head + w)[|head|..] == w;
    assert v[..|head| + |w|][..|head|] == v[..|head|] && v[..|head| + |w|][|head|..] == v[|head|..|head| + |w|];
  }

  lemma Piece16(v: seq<byte>, head: seq<byte>, x: nat)
    requires |v| >= |head| + 2 && v[..|head| + 2] == head + W16(x)
    ensures v[..|head|] == head && Rd16(v, |head|) == x % 0x1_0000
  {
    Piece(v, head, W16(x));
    var i := |head|;
    assert v[i..i + 2][0] == v[i] && v[i..i + 2][1] == v[i + 1];
    Reads16(v, i, x);
  }

  lemma Piece32(v: seq<byte>, head: seq<byte>, x: nat)
    requires |v| >= |head| + 4 && v[..|head| + 4] == head + W32(x)
    ensures v[..|head|] == head && Rd32(v, |head|) == x % TWO32
  {
    LastField(v, head, x);
    Piece(v, head, W32(x));
    Reads32(v, |head|, x);
  }

  /** The FMV1 header: its name, width, height, frame rate, padding and frame count, each at its place. */
  lemma Fmv1Fields(v: seq<byte>, w: nat, h: nat, fps: nat, n: nat)
    requires |v| >= 16 && v[..16] == Fmv1Header(w, h, fps, n)
    ensures v[..4] == [0x46, 0x4D, 0x56, 0x31]
    ensures Rd16(v, 4) == w % 0x1_0000 && Rd16(v, 6) == h % 0x1_0000 && Rd16(v, 8) == fps % 0x1_0000
    ensures Rd16(v, 10) == 0 && Rd32(v, 12) == n % TWO32
  {
    var a: seq<byte> := [0x46, 0x4D, 0x56, 0x31];
    var b := a + W16(w);
    var c := b + W16(h);
    var d := c + W16(fps);
    var e := d + W16(0);
    assert v[..16] == e + W32(n);
    Piece32(v, e, n);
    Piece16(v, d, 0);
    Piece16(v, c, fps);
    Piece16(v, b, h);
    Piece16(v, a, w);
  }

  /** The WAV header: every field of the format chunk, the names and both sizes, each at its place. */
  lemma WavFields(v: seq<byte>, ach: nat, rate: nat, abits: nat, data: nat)
    requires |v| >= 44 && v[..44] == WavHeader(ach, rate, abits, data)
    ensures v[..4] == [0x52, 0x49, 0x46, 0x46] && Rd32(v, 4) == (36 + data) % TWO32
    ensures v[8..12] == [0x57, 0x41, 0x56, 0x45] && v[12..16] == [0x66, 0x6D, 0x74, 0x20] && Rd32(v, 16) == 16
    ensures Rd16(v, 20) == 1 && Rd16(v, 22) == ach % 0x1_0000 && Rd32(v, 24) == rate % TWO32
    ensures var align := ach * (abits / 8) % 0x1_0000;
            Rd16(v, 32) == align && Rd32(v, 28) == rate * align % TWO32
    ensures Rd16(v, 34) == abits % 0x1_0000 && v[36..40] == [0x64, 0x61, 0x74, 0x61] && Rd32(v, 40) == data % TWO32
  {
    var s, f := WavStart(data), WavFormat(ach, rate, abits);
    Piece32(v, s + f, data);
    Piece(v, s, f);
    var riff: seq<byte> := [0x52, 0x49, 0x46, 0x46];
    Piece32(v, riff, 36 + data);
    var align := ach * (abits / 8) % 0x1_0000;
    FormatFields(v, v[8..40], ach, rate, abits, align, rate * align);
  }

  lemma FormatFields(v: seq<byte>, f: seq<byte>, ach: nat, rate: nat, abits: nat, align: nat, speed: nat)
    requires |v| >= 40 && f == v[8..40] == FormatBytes(ach, rate, abits, align, speed) && align < 0x1_0000
    ensures v[8..12] == [0x57, 0x41, 0x56, 0x45] && v[12..16] == [0x66, 0x6D, 0x74, 0x20] && Rd32(v, 16) == 16
    ensures Rd16(v, 20) == 1 && Rd16(v, 22) == ach % 0x1_0000 && Rd32(v, 24) == rate % TWO32
    ensures Rd32(v, 28) == speed % TWO32 && Rd16(v, 32) == align
    ensures Rd16(v, 34) == abits % 0x1_0000 && v[36..40] == [0x64, 0x61, 0x74, 0x61]
  {
    FormatPieces(f, ach, rate, abits, align, speed);
    Shifted16(v, f, 12);
    Shifted16(v, f, 14);
    Shifted16(v, f, 24);
    Shifted16(v, f, 26);
    Names(v, f);
    Shifted32(v, f, 8);
    Shifted32(v, f, 16);
    Shifted32(v, f, 20);
  }

  lemma Names(v: seq<byte>, f: seq<byte>)
    requires |v| >= 40 && f == v[8..40]
    ensures v[8..12] == f[..4] && v[12..16] == f[4..8] && v[36..40] == f[28..32]
  {
  }

  /** The format chunk starts at byte 8. */
  lemma Shifted16(v: seq<byte>, f: seq<byte>, i: nat)
    requires |v| >= 40 && f == v[8..40] && i + 2 <= 32
    ensures Rd16(v, 8 + i) == Rd16(f, i)
  {
    assert f[i] == v[8 + i] && f[i + 1] == v[8 + i + 1];
  }

  lemma Shifted32(v: seq<byte>, f: seq<byte>, i: nat)
    requires |v| >= 40 && f == v[8..40] && i + 4 <= 32
    ensures Rd32(v, 8 + i) == Rd32(f, i)
  {
    assert f[i] == v[8 + i] && f[i + 1] == v[8 + i + 1] && f[i + 2] == v[8 + i + 2] && f[i + 3] == v[8 + i + 3];
  }

  lemma FormatPieces(f: seq<byte>, ach: nat, rate: nat, abits: nat, align: nat, speed: nat)
    requires f == FormatBytes(ach, rate, abits, align, speed) && align < 0x1_0000
    ensures f[..4] == [0x57, 0x41, 0x56, 0x45] && f[4..8] == [0x66, 0x6D, 0x74, 0x20] && Rd32(f, 8) == 16
    ensures Rd16(f, 12) == 1 && Rd16(f, 14) == ach % 0x1_0000 && Rd32(f, 16) == rate % TWO32
    ensures Rd32(f, 20) == speed % TWO32 && Rd16(f, 24) == align
    ensures Rd16(f, 26) == abits % 0x1_0000 && f[28..32] == [0x64, 0x61, 0x74, 0x61]
  {
    var a: seq<byte> := [0x57, 0x41, 0x56, 0x45, 0x66, 0x6D, 0x74, 0x20];
    var b := a + W32(16);
    var c := b + W16(1);
    var d := c + W16(ach);
    var e := d + W32(rate);
    var g := e + W32(speed);
    var h := g + W16(align);
    var i := h + W16(abits);
    assert f[..32] == f == i + [0x64, 0x61, 0x74, 0x61];
    Piece(f, i, [0x64, 0x61, 0x74, 0x61]);
    Piece16(f, h, abits);
    Piece16(f, g, align);
    Piece32(f, e, speed);
    Piece32(f, d, rate);
    Piece16(f, c, ach);
    Piece16(f, b, 1);
    Piece32(f, a, 16);
    assert f[..8][..4] == f[..4] && f[..8][4..] == f[4..8];
  }

  /** A video output with these fields, read at their places. */
  predicate VideoHas(v: seq<byte>, w: nat, h: nat, fps: nat, n: nat) {
    |v| >= 16 && Rd16(v, 4) == w && Rd16(v, 6) == h && Rd16(v, 8) == fps && Rd32(v, 12) == n
  }

  /** An audio output with these fields, and the block size and byte rate that follow from them. */
  predicate AudioHas(v: seq<byte>, ach: nat, rate: nat, abits: nat) {
    && |v| >= 44 && Rd16(v, 22) == ach && Rd32(v, 24) == rate && Rd16(v, 34) == abits
    && Rd16(v, 32) == ach * (abits / 8) % 0x1_0000 && Rd32(v, 28) == rate * Rd16(v, 32) % TWO32
  }

  lemma Fmv1Exact(v: seq<byte>, w: nat, h: nat, fps: nat, n: nat)
    requires |v| >= 16 && v[..16] == Fmv1Header(w, h, fps, n)
    requires w < 0x1_0000 && h < 0x1_0000 && fps < 0x1_0000 && n < TWO32
    ensures VideoHas(v, w, h, fps, n)
  {
    Fmv1Fields(v, w, h, fps, n);
    DivUnique(w, 0, 0x1_0000);
    DivUnique(h, 0, 0x1_0000);
    DivUnique(fps, 0, 0x1_0000);
    DivUnique(n, 0, TWO32);
  }

  lemma WavExact(v: seq<byte>, ach: nat, rate: nat, abits: nat, data: nat)
    requires |v| >= 44 && v[..44] == WavHeader(ach, rate, abits, data)
    requires ach < 0x1_0000 && rate < TWO32 && abits < 0x1_0000
    ensures AudioHas(v, ach, rate, abits)
  {
    WavFields(v, ach, rate, abits, data);
    DivUnique(ach, 0, 0x1_0000);
    DivUnique(rate, 0, TWO32);
    DivUnique(abits, 0, 0x1_0000);
  }

  /** The headers of the outputs, the audio's without the size of its data. */
  lemma OutputHeaders(input: seq<byte>, block: nat, n: nat, r: Output) returns (data: nat)
    requires Splits(input, block, n, r) && r.Demuxed?
    ensures |input| >= 32 && |r.video| >= 16 && |r.audio| >= 44
    ensures r.video[..16] == Fmv1Header(Rd16(input, 4), Rd16(input, 6), Rd16(input, 8), Rd32(input, 12))
    ensures r.audio[..44] == WavHeader(Rd16(input, 10), Rd32(input, 16), Rd16(input, 20), data)
  {
    data := n * Rd32(input, 24) % TWO32;
  }

  /** For any input that is split at all: the fields of the two outputs are the input's own, each at its place. */
  lemma OutputFields(input: seq<byte>, block: nat, n: nat, r: Output)
    requires Splits(input, block, n, r) && r.Demuxed?
    ensures |input| >= 32 && VideoHas(r.video, Rd16(input, 4), Rd16(input, 6), Rd16(input, 8), Rd32(input, 12))
    ensures AudioHas(r.audio, Rd16(input, 10), Rd32(input, 16), Rd16(input, 20))
  {
    var data := OutputHeaders(input, block, n, r);
    Fmv1Exact(r.video, Rd16(input, 4), Rd16(input, 6), Rd16(input, 8), Rd32(input, 12));
    WavExact(r.audio, Rd16(input, 10), Rd32(input, 16), Rd16(input, 20), data);
  }

  // ---- the output's name ----

  /** strrchr: the last place of a character, -1 for none. */
  function LastOf(s: string, c: char): (i: int)
    ensures -1 <= i < |s| && (i >= 0 ==> s[i] == c) && forall j :: i < j < |s| ==> s[j] != c
  {
    if s == "" then -1 else if s[|s| - 1] == c then |s| - 1 else LastOf(s[..|s| - 1], c)
  }

  /** The base of both outputs when only the input is named: its path without the extension of its last part, for paths
      that fit the buffers. */
  function OutputBase(path: string): string {
    var dot := LastOf(path, '.');
    if dot >= 0 && dot > LastOf(path, '/') && dot > LastOf(path, '\\') then path[..dot] else path
  }

  /** With one argument the video output is the input file itself exactly if that is named .fmv. It is opened for
      writing, and so emptied, before the frames are read. */
  lemma OverwritesInputIff(path: string)
    ensures OutputBase(path) + ".fmv" == path <==> |path| >= 4 && path[|path| - 4..] == ".fmv"
  {
    var n, base := |path| - 4, OutputBase(path);
    assert (base + ".fmv")[|base|..] == ".fmv";
    if n >= 0 && path[n..] == ".fmv" {
      assert path[n] == '.' && path[n + 1] == 'f' && path[n + 2] == 'm' && path[n + 3] == 'v';
      assert LastOf(path, '.') == n;
      assert path == path[..n] + ".fmv";
    }
  }

  /** What comes of it: of the emptied input only what was read ahead is left. If those k bytes hold the header but not
      one whole frame, the outputs are their headers and no frame at all. */
  lemma CutInputHasNoFrames(input: seq<byte>, k: nat, block: nat, n: nat, r: Output)
    requires 32 <= k <= |input| && k < 32 + Rd32(input, 24) + block && Splits(input[..k], block, n, r)
    ensures r.Demuxed? ==> n == 0 && |r.video| == 16 && |r.audio| == 44
    ensures r.Demuxed? <==> input[..4] == [0x46, 0x4D, 0x56, 0x32]
  {
    var cut := input[..k];
    assert cut[..4] == input[..4] && Rd32(cut, 24) == Rd32(input, 24);
    if r.Demuxed? {
      NoFrameFits(n, Rd32(cut, 12), Rd32(cut, 24) + block, k);
    }
  }

  lemma NoFrameFits(n: nat, nfr: nat, unit: nat, len: nat)
    requires Complete(n, nfr, unit, len) && len < 32 + unit
    ensures n == 0
  {
    TimesMonotone(1, n, unit);
    assert Times(0, unit) == 0 && Times(1, unit) == unit;
  }
}
