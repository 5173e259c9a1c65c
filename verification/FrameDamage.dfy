/** What the frame parser makes of a frame that was damaged on the way. */
module FrameDamage {
  import opened Bytes
  import opened Crc32
  import opened FrameStream

  function Damaged(s: Bytes, i: nat, w: Bytes): (r: Bytes)
    requires i + |w| <= |s|
    ensures |r| == |s|
  {
    s[..i] + w + s[i + |w|..]
  }

  /** Damage that leaves a frame's extent readable: the correlation flag and the length field. */
  predicate KeepsExtent(f: Frame, damaged: Bytes)
    requires WellFormed(f) && |damaged| >= HEADER_SIZE + Extension(f.flags)
  {
    var ext := Extension(f.flags);
    Extension(damaged[2]) == ext && damaged[5 + ext..HEADER_SIZE + ext] == PutU32(|f.payload|)
  }

  /**
   With CRC-32 as the checksum, a frame damaged inside at most four consecutive bytes anywhere, magic
   and checksum included, is never delivered at its position, as long as its extent can still be
   read: the parser drops the first byte and looks further on.
   */
  lemma DamagedFrameSkipped(sum: Sum, f: Frame, i: nat, w: Bytes, after: Bytes)
    requires IsChecksum(sum)
    requires WellFormed(f)
    requires |w| <= 4 && i + |w| <= |Wire(sum, f)|
    requires w != Wire(sum, f)[i..i + |w|]
    requires KeepsExtent(f, Damaged(Wire(sum, f), i, w))
    ensures
      var damaged := Damaged(Wire(sum, f), i, w);
      Look(sum, damaged + after) == Skip(damaged)
  {
    var damaged := Damaged(Wire(sum, f), i, w);
    var s := damaged + after;
    assert s[0] == damaged[0] && s[1] == damaged[1];
    if MayStart(s) {
      ExtentRead(f, damaged, after);
      ChecksumWrong(sum, f, i, w, after);
      BadChecksumSkipped(sum, s, |f.payload|);
    }
  }

  lemma ExtentRead(f: Frame, damaged: Bytes, after: Bytes)
    requires WellFormed(f)
    requires |damaged| >= HEADER_SIZE + Extension(f.flags) + |f.payload| + CRC_SIZE
    requires KeepsExtent(f, damaged)
    ensures
      var s := damaged + after;
      var ext := Extension(f.flags);
      && Extension(s[2]) == ext
      && GetU32(s[5 + ext..HEADER_SIZE + ext]) == |f.payload|
  {
    var ext := Extension(f.flags);
    assert (damaged + after)[5 + ext..HEADER_SIZE + ext] == damaged[5 + ext..HEADER_SIZE + ext];
    U32RoundTrip(|f.payload|);
  }

  /** A damaged frame carries a checksum that is not that of what precedes it. */
  lemma ChecksumWrong(sum: Sum, f: Frame, i: nat, w: Bytes, after: Bytes)
    requires IsChecksum(sum)
    requires WellFormed(f)
    requires |w| <= 4 && i + |w| <= |Wire(sum, f)|
    requires w != Wire(sum, f)[i..i + |w|]
    ensures
      var s := Damaged(Wire(sum, f), i, w) + after;
      var end := HEADER_SIZE + Extension(f.flags) + |f.payload|;
      |s| >= end + CRC_SIZE && sum(s[..end]) != GetU32(s[end..end + CRC_SIZE])
  {
    var body := Header(f) + f.payload;
    var damaged := Damaged(Wire(sum, f), i, w);
    CodewordDamaged(sum, f, i, w);
    SliceKept(damaged, after, 0, |body|);
    SliceKept(damaged, after, |body|, |body| + CRC_SIZE);
  }

  lemma SplitAround(s: Bytes, i: nat, n: nat)
    requires i + n <= |s|
    ensures s == s[..i] + s[i..i + n] + s[i + n..]
  {
  }

  lemma CodewordDamaged(sum: Sum, f: Frame, i: nat, w: Bytes)
    requires IsChecksum(sum)
    requires WellFormed(f)
    requires |w| <= 4 && i + |w| <= |Wire(sum, f)|
    requires w != Wire(sum, f)[i..i + |w|]
    ensures
      var damaged := Damaged(Wire(sum, f), i, w);
      var end := |Header(f) + f.payload|;
      |damaged| == end + CRC_SIZE && sum(damaged[..end]) != GetU32(damaged[end..end + CRC_SIZE])
  {
    ChecksummedDamaged(sum, Header(f) + f.payload, Wire(sum, f), i, w);
  }

  lemma ChecksummedDamaged(sum: Sum, body: Bytes, wire: Bytes, i: nat, w: Bytes)
    requires IsChecksum(sum)
    requires wire == body + PutU32(sum(body))
    requires |w| <= 4 && i + |w| <= |wire| && w != wire[i..i + |w|]
    ensures
      var damaged := Damaged(wire, i, w);
      |damaged| == |body| + CRC_SIZE && sum(damaged[..|body|]) != GetU32(damaged[|body|..|body| + CRC_SIZE])
  {
    var damaged := Damaged(wire, i, w);
    var read := damaged[..|body|];
    assert sum(body) == Crc(body) && sum(read) == Crc(read);
    SplitAround(wire, i, |w|);
    NotACodeword(body, wire, wire[..i], wire[i..i + |w|], w, wire[i + |w|..], damaged, |body|);
  }

  lemma NotACodeword(body: Bytes, wire: Bytes, before: Bytes, v: Bytes, w: Bytes, after: Bytes, damaged: Bytes, end: nat)
    requires wire == body + PutU32(Crc(body)) && wire == before + v + after && damaged == before + w + after
    requires |v| == |w| <= 4 && v != w && |damaged| == end + CRC_SIZE
    ensures GetU32(damaged[end..end + CRC_SIZE]) != Crc(damaged[..end])
  {
    U32Canonical(damaged[end..end + CRC_SIZE]);
    assert damaged == damaged[..end] + damaged[end..end + CRC_SIZE];
    DamagedCodeword(body, before, v, w, after, damaged[..end], GetU32(damaged[end..end + CRC_SIZE]));
  }

  lemma BadChecksumSkipped(sum: Sum, s: Bytes, len: nat)
    requires |s| >= HEADER_SIZE && s[0] == 0x54 && s[1] == 0x4F && len <= MAX_PAYLOAD
    requires |s| >= HEADER_SIZE + Extension(s[2]) + len + CRC_SIZE
    requires GetU32(s[5 + Extension(s[2])..HEADER_SIZE + Extension(s[2])]) == len
    requires
      var end := HEADER_SIZE + Extension(s[2]) + len;
      sum(s[..end]) != GetU32(s[end..end + CRC_SIZE])
    ensures Look(sum, s) == Skip(s)
  {
  }
}
