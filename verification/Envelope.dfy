/**
 The snapshot state file: an encoded envelope followed by its CRC-64 (crates/snapshot/src/envelope.rs).

 The encoder and decoder are library code; they are parameters here.  The only thing assumed of
 them, where it is assumed, is that decoding undoes encoding.
 */
module Envelope {
  import opened Words
  import opened Outcomes
  import opened Crc
  import opened Disk

  const SNAPSHOT_MAGIC_AARCH64: nat := 0x0710_1984_AAAA_0000
  const SNAPSHOT_VERSION: Version := Version(5, 0, 0)
  const SNAPSHOT_DESERIALIZATION_BYTES_LIMIT: nat := 10_000_000

  datatype Version = Version(major: nat, minor: nat, patch: nat)
  datatype Header = Header(magic: nat, version: Version)
  datatype Snapshot<D> = Snapshot(header: Header, data: D)

  datatype Codec<!D> = Codec(encode: Snapshot<D> -> Option<seq<Byte>>, decode: seq<Byte> -> Option<Snapshot<D>>)

  /** Decoding undoes encoding. */
  ghost predicate Decodes<D(!new)>(codec: Codec<D>) {
    forall s: Snapshot<D> :: codec.encode(s).Some? ==> codec.decode(codec.encode(s).value) == Some(s)
  }

  function Stamp<D>(data: D): Snapshot<D> {
    Snapshot(Header(SNAPSHOT_MAGIC_AARCH64, SNAPSHOT_VERSION), data)
  }

  /** What a complete state file with this encoded body holds. */
  function StateFile(poly: nat, body: seq<Byte>): seq<Byte> {
    body + ToLe(Crc64(poly, 0, body), 8)
  }

  /** A writer that keeps the CRC of the bytes its target has accepted. */
  class Crc64Writer {
    const writer: File
    const poly: nat
    var crc: nat

    constructor (writer: File, poly: nat)
      ensures this.writer == writer && this.poly == poly && crc == 0
    {
      this.writer, this.poly, crc := writer, poly, 0;
    }

    /** One short write: only the accepted prefix enters the CRC. */
    method Write(buf: seq<Byte>) returns (n: Option<nat>)
      requires writer.Open()
      modifies this, writer, writer.fs
      ensures writer.Open() && writer.fs.unlinkFailed == old(writer.fs.unlinkFailed)
      ensures Taken(n) <= |buf| && writer.pos == old(writer.pos) + Taken(n)
      ensures crc == Crc64(poly, old(crc), buf[..Taken(n)])
      ensures writer.fs.files == old(writer.fs.files)[writer.path :=
                Splice(old(writer.fs.files)[writer.path], old(writer.pos), buf[..Taken(n)])]
      ensures writer.fs.history == old(writer.fs.history) + [writer.fs.files]
    {
      n := writer.Write(buf);
      if n.Some? {
        crc := Crc64(poly, crc, buf[..n.value]);
      }
    }

    /**
     Any series of short writes: the running value is the one-shot CRC of the accepted prefix,
     which is also exactly what reached the file.
     */
    method WriteAll(buf: seq<Byte>) returns (ok: bool, ghost accepted: nat)
      requires writer.Open()
      modifies this, writer, writer.fs
      ensures writer.Open() && writer.fs.unlinkFailed == old(writer.fs.unlinkFailed)
      ensures accepted <= |buf| && (ok ==> accepted == |buf|)
      ensures crc == Crc64(poly, old(crc), buf[..accepted])
      ensures writer.pos == old(writer.pos) + accepted
      ensures writer.fs.files == old(writer.fs.files)[writer.path :=
                Splice(old(writer.fs.files)[writer.path], old(writer.pos), buf[..accepted])]
      ensures old(writer.fs.history) <= writer.fs.history
      ensures OnlyTouched(writer.fs.history, |old(writer.fs.history)|, old(writer.fs.files), {writer.path})
    {
      ghost var before, h0, start := writer.fs.files, writer.fs.history, writer.pos;
      ghost var base := before[writer.path];
      ghost var image := base;
      var done := 0;
      EmptyWrite(before, writer.path, start);
      assert before[writer.path := image] == before && buf[..0] == [];
      while done < |buf|
        invariant writer.Open() && writer.fs.unlinkFailed == old(writer.fs.unlinkFailed)
        invariant done <= |buf| && writer.pos == start + done
        invariant crc == Crc64(poly, old(crc), buf[..done])
        invariant writer.fs.files == before[writer.path := image] && image == Splice(base, start, buf[..done])
        invariant h0 <= writer.fs.history && OnlyTouched(writer.fs.history, |h0|, before, {writer.path})
      {
        ghost var h := writer.fs.history;
        var n := Write(buf[done..]);
        NextWrite(base, start, buf, done, Taken(n));
        NextCrc(poly, old(crc), buf, done, Taken(n));
        Overwrite(before, writer.path, image, Splice(base, start, buf[..done + Taken(n)]));
        image := Splice(base, start, buf[..done + Taken(n)]);
        OneMoreState(h, |h0|, before, writer.path, image);
        if Taken(n) == 0 {
          return false, done;
        }
        done := done + Taken(n);
      }
      return true, done;
    }
  }

  lemma NextCrc(poly: nat, r: nat, buf: seq<Byte>, done: nat, n: nat)
    requires done + n <= |buf|
    ensures Crc64(poly, Crc64(poly, r, buf[..done]), buf[done..][..n]) == Crc64(poly, r, buf[..done + n])
  {
    assert buf[..done] + buf[done..][..n] == buf[..done + n];
    CrcConcat(poly, r, buf[..done], buf[done..][..n]);
  }

  /** `Snapshot::save`: on success the file has gained exactly body and trailer. */
  method SaveEnvelope<D>(codec: Codec<D>, poly: nat, snapshot: Snapshot<D>, file: File) returns (r: Result<()>)
    requires file.Open()
    modifies file, file.fs
    ensures file.Open() && file.fs.unlinkFailed == old(file.fs.unlinkFailed)
    ensures old(file.fs.history) <= file.fs.history
    ensures OnlyTouched(file.fs.history, |old(file.fs.history)|, old(file.fs.files), {file.path})
    ensures SameExcept(file.fs.files, old(file.fs.files), {file.path})
    ensures r.Err? ==> r.error in {Bitcode, Io}
    ensures r.Ok? ==> codec.encode(snapshot).Some? &&
                      file.fs.files == old(file.fs.files)[file.path :=
                        Splice(old(file.fs.files)[file.path], old(file.pos),
                               StateFile(poly, codec.encode(snapshot).value))]
  {
    var encoded := codec.encode(snapshot);
    if encoded.None? {
      return Err(Bitcode);
    }
    var ok := WriteState(poly, encoded.value, file);
    return if ok then Ok(()) else Err(Io);
  }

  /** Body through the CRC writer, then the trailer past it. */
  method WriteState(poly: nat, body: seq<Byte>, file: File) returns (ok: bool)
    requires file.Open()
    modifies file, file.fs
    ensures file.Open() && file.fs.unlinkFailed == old(file.fs.unlinkFailed)
    ensures old(file.fs.history) <= file.fs.history
    ensures OnlyTouched(file.fs.history, |old(file.fs.history)|, old(file.fs.files), {file.path})
    ensures SameExcept(file.fs.files, old(file.fs.files), {file.path})
    ensures ok ==> file.fs.files == old(file.fs.files)[file.path :=
                     Splice(old(file.fs.files)[file.path], old(file.pos), StateFile(poly, body))]
  {
    ghost var before, base, start, h0 := file.fs.files, file.fs.files[file.path], file.pos, file.fs.history;
    var crcWriter := new Crc64Writer(file, poly);
    ghost var accepted, more;
    ok, accepted := crcWriter.WriteAll(body);
    ghost var mid, h1 := file.fs.files, file.fs.history;
    assert SameExcept(mid, before, {file.path});
    if ok {
      var trailer := ToLe(crcWriter.crc, 8);
      ok, more := file.WriteAll(trailer);
      TouchedThen(h0, h1, file.fs.history, before, mid, {file.path});
      if ok {
        assert body[..accepted] == body && trailer[..more] == trailer;
        SpliceTwice(base, start, body, trailer);
        Overwrite(before, file.path, Splice(base, start, body), Splice(base, start, body + trailer));
      }
    }
  }

  // ---- loading -----------------------------------------------------------------------------

  function LoadWithoutCrcCheck<D>(codec: Codec<D>, buf: seq<Byte>): (r: Result<Snapshot<D>>)
  {
    if |buf| > SNAPSHOT_DESERIALIZATION_BYTES_LIMIT then Err(SizeLimitExceeded)
    else
      match codec.decode(buf)
      case None => Err(Bitcode)
      case Some(s) =>
        if s.header.magic != SNAPSHOT_MAGIC_AARCH64 then Err(MagicMismatch)
        else if s.header.version.major != SNAPSHOT_VERSION.major || s.header.version.minor > SNAPSHOT_VERSION.minor
        then Err(VersionMismatch)
        else Ok(s)
  }

  function LoadFromSlice<D>(codec: Codec<D>, poly: nat, buf: seq<Byte>): (r: Result<Snapshot<D>>)
  {
    if |buf| > SNAPSHOT_DESERIALIZATION_BYTES_LIMIT then Err(SizeLimitExceeded)
    else if |buf| < 8 then Err(TooShort)
    else if Crc64(poly, 0, buf) != 0 then Err(CrcMismatch)
    else LoadWithoutCrcCheck(codec, buf[..|buf| - 8])
  }

  /** `load` from a file of the given contents: at most one byte past the limit is read. */
  function Load<D>(codec: Codec<D>, poly: nat, contents: seq<Byte>): (r: Result<Snapshot<D>>)
  {
    var cap := SNAPSHOT_DESERIALIZATION_BYTES_LIMIT + 1;
    var buf := if |contents| <= cap then contents else contents[..cap];
    if |buf| > SNAPSHOT_DESERIALIZATION_BYTES_LIMIT then Err(SizeLimitExceeded)
    else LoadFromSlice(codec, poly, buf)
  }

  /** A buffer of acceptable size fails the CRC test exactly when its trailer is not the CRC of its body. */
  lemma CrcMismatchIff<D>(codec: Codec<D>, poly: nat, buf: seq<Byte>)
    requires IsGenerator(poly) && 8 <= |buf| <= SNAPSHOT_DESERIALIZATION_BYTES_LIMIT
    ensures LoadFromSlice(codec, poly, buf) == Err(CrcMismatch) <==>
            buf != StateFile(poly, buf[..|buf| - 8])
  {
    ResidueIffTrailer(poly, buf);
    var body, trailer := buf[..|buf| - 8], buf[|buf| - 8..];
    assert buf == body + trailer;
    var expected := ToLe(Crc64(poly, 0, body), 8);
    if buf == body + expected {
      assert (body + expected)[|body|..] == expected;
      assert trailer == expected;
    }
  }

  /**
   Every file `save` produces is accepted and gives the saved envelope back, exactly when it is
   within the size limit; a longer one is refused.
   */
  lemma SavedFileLoads<D(!new)>(codec: Codec<D>, poly: nat, data: D)
    requires IsGenerator(poly) && Decodes(codec) && codec.encode(Stamp(data)).Some?
    ensures var contents := StateFile(poly, codec.encode(Stamp(data)).value);
            && (Load(codec, poly, contents).Ok? <==> |contents| <= SNAPSHOT_DESERIALIZATION_BYTES_LIMIT)
            && (Load(codec, poly, contents).Ok? ==> Load(codec, poly, contents) == Ok(Stamp(data)))
            && (Load(codec, poly, contents).Err? ==> Load(codec, poly, contents) == Err(SizeLimitExceeded))
  {
    var body := codec.encode(Stamp(data)).value;
    var contents := StateFile(poly, body);
    assert contents[..|contents| - 8] == body;
    assert contents[|contents| - 8..] == ToLe(Crc64(poly, 0, body), 8);
    ResidueIffTrailer(poly, contents);
    assert codec.decode(body) == Some(Stamp(data));
  }

  /** Changing anything inside eight consecutive bytes of an accepted file is always noticed. */
  lemma CorruptionIsRefused<D>(codec: Codec<D>, poly: nat, buf: seq<Byte>, changed: seq<Byte>, at: nat)
    requires IsGenerator(poly) && |buf| == |changed| && buf != changed
    requires at <= |buf| && forall i :: 0 <= i < |buf| && !(at <= i < at + 8) ==> buf[i] == changed[i]
    requires LoadFromSlice(codec, poly, buf).Ok?
    ensures LoadFromSlice(codec, poly, changed) == Err(CrcMismatch)
  {
    var end := if at + 8 <= |buf| then at + 8 else |buf|;
    var pre, w, w', post := buf[..at], buf[at..end], changed[at..end], buf[end..];
    assert buf == pre + w + post;
    assert changed == pre + w' + post;
    assert w != w';
    WindowCorruptionDetected(poly, pre, w, w', post);
  }

  /** What the CRC cannot see: the register starts at zero, so leading zero bytes leave no trace. */
  lemma {:induction false} LeadingZerosInvisible(poly: nat, n: nat, bytes: seq<Byte>)
    ensures Crc64(poly, 0, Zeros(n) + bytes) == Crc64(poly, 0, bytes)
    decreases n
  {
    if n == 0 {
      assert Zeros(n) + bytes == bytes;
    } else {
      var all := Zeros(n) + bytes;
      assert all[0] == 0 && all[1..] == Zeros(n - 1) + bytes;
      ShiftsOfZero(poly, 8);
      LeadingZerosInvisible(poly, n - 1, bytes);
    }
  }
}
