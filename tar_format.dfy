/**
 * The library side of the tar helper: Go's archive/tar Writer and
 * Reader, io.MultiWriter and the byte sinks they write to.
 *
 * The byte layout of the container (ustar/pax headers, block padding,
 * the end-of-archive blocks) is not modelled: a Codec supplies it as
 * uninterpreted functions. What is modelled is the Writer's state
 * machine (sticky errors, padding owed for the previous entry and
 * flushed by the next header or by Close, the two trailing zero
 * blocks) and the Reader's entry-by-entry traversal.
 */
module TarFormat {
  import opened Wrappers

  /** The header type flags the helper distinguishes. */
  datatype TypeFlag = TypeReg | TypeDir | TypeSymlink | TypeOther(flag: char)

  /** The fields of a tar.Header that the helper reads or writes. */
  datatype Header = Header(name: string, typeflag: TypeFlag, mode: int, linkname: string, size: nat)

  /** One container entry: a header and the content that follows it. */
  datatype Entry = Entry(header: Header, content: seq<byte>)

  /** Why the Reader could not produce the next header (a truncated or malformed stream). */
  datatype ReadError = ReadError(reason: string)

  /**
   * What a Reader yields for a byte stream: its entries, then either a
   * clean end or an error. When `truncated` holds, the stream breaks off
   * inside the content of its last entry: that entry's `content` is the
   * part that is there, and reading beyond it reports `end` (for
   * io.ErrUnexpectedEOF).
   */
  datatype Stream = Stream(entries: seq<Entry>, end: Option<ReadError>, truncated: bool)

  /** The error reported after the content of entry i has been read, if any. */
  function ContentErr(s: Stream, i: nat): (r: Option<ReadError>)
    ensures r.Some? <==> s.truncated && s.end.Some? && i + 1 == |s.entries|
    ensures r.Some? ==> r == s.end
  {
    if s.truncated && i + 1 == |s.entries| then s.end else None
  }

  /**
   * The container encoding, left uninterpreted: the bytes of one header,
   * the zero padding owed after content of a given length, one zero
   * block of the end-of-archive marker, and the Reader's decoding.
   */
  datatype Codec = Codec(
    header: Header -> seq<byte>,
    padding: nat -> seq<byte>,
    zeroBlock: seq<byte>,
    decode: seq<byte> -> Stream)

  /** Header-only types carry no content, whatever their size field says. */
  function ContentSize(h: Header): (n: nat)
    ensures h.typeflag.TypeDir? || h.typeflag.TypeSymlink? ==> n == 0
    ensures h.typeflag.TypeReg? ==> n == h.size
  {
    if h.typeflag.TypeDir? || h.typeflag.TypeSymlink? then 0 else h.size
  }

  /** An entry whose content is exactly as long as its header announces. */
  predicate WellFormed(e: Entry) {
    |e.content| == ContentSize(e.header)
  }

  /**
   * The bytes a Writer sends for the entries `es`, when the padding
   * `pad` is still owed for the entry written before them. The padding
   * of the last entry is not included: the Writer only sends it once
   * the next header or the end of the archive is written.
   */
  function StreamBytes(c: Codec, pad: seq<byte>, es: seq<Entry>): seq<byte>
    decreases |es|
  {
    if es == [] then []
    else pad + c.header(es[0].header) + es[0].content
         + StreamBytes(c, c.padding(ContentSize(es[0].header)), es[1..])
  }

  /** The padding still owed after the entries `es`. */
  function PadAfter(c: Codec, pad: seq<byte>, es: seq<Entry>): seq<byte> {
    if es == [] then pad else c.padding(ContentSize(es[|es| - 1].header))
  }

  /** The complete archive a Writer produces for `es` and then Close. */
  function ArchiveBytes(c: Codec, es: seq<Entry>): seq<byte> {
    StreamBytes(c, [], es) + PadAfter(c, [], es) + c.zeroBlock + c.zeroBlock
  }

  /** The padding owed after a non-empty list is the one owed after its tail. */
  lemma PadAfterCons(c: Codec, pad: seq<byte>, a: seq<Entry>)
    requires a != []
    ensures PadAfter(c, pad, a) == PadAfter(c, c.padding(ContentSize(a[0].header)), a[1..])
  {
    if |a| > 1 {
      assert a[1..][|a[1..]| - 1] == a[|a| - 1];
    }
  }

  /** Writing `a` and then `b` sends the bytes of `a + b`, and owes the same padding. */
  lemma {:induction false} StreamBytesAppend(c: Codec, pad: seq<byte>, a: seq<Entry>, b: seq<Entry>)
    ensures StreamBytes(c, pad, a + b) == StreamBytes(c, pad, a) + StreamBytes(c, PadAfter(c, pad, a), b)
    ensures PadAfter(c, pad, a + b) == PadAfter(c, PadAfter(c, pad, a), b)
    decreases |a|
  {
    if a == [] {
      assert a + b == b;
    } else {
      var p1 := c.padding(ContentSize(a[0].header));
      var front := pad + c.header(a[0].header) + a[0].content;
      assert (a + b)[0] == a[0];
      assert (a + b)[1..] == a[1..] + b;
      StreamBytesAppend(c, p1, a[1..], b);
      PadAfterCons(c, pad, a);
      PadAfterCons(c, pad, a + b);
      assert StreamBytes(c, pad, a + b) == front + StreamBytes(c, p1, a[1..] + b);
      assert StreamBytes(c, pad, a) == front + StreamBytes(c, p1, a[1..]);
    }
  }

  /** The failure of a write to a sink. */
  datatype SinkError = NoSpace

  /**
   * An io.Writer that keeps what it accepts: the caller's target, or the
   * running input of the hash. A sink with a capacity refuses any write
   * that would take it beyond the capacity, and then accepts nothing of
   * that write.
   */
  class Sink {
    var bytes: seq<byte>
    const capacity: Option<nat>

    ghost predicate Valid()
      reads this
    {
      capacity.Some? ==> |bytes| <= capacity.value
    }

    /** Whether `n` more bytes still fit. */
    predicate Fits(n: nat)
      reads this
    {
      capacity.None? || |bytes| + n <= capacity.value
    }

    constructor (initial: seq<byte>, capacity: Option<nat>)
      requires capacity.Some? ==> |initial| <= capacity.value
      ensures Valid() && bytes == initial && this.capacity == capacity
    {
      bytes := initial;
      this.capacity := capacity;
    }

    method Write(p: seq<byte>) returns (err: Option<SinkError>)
      requires Valid()
      modifies this
      ensures Valid()
      ensures err.None? <==> old(Fits(|p|))
      ensures bytes == if err.None? then old(bytes) + p else old(bytes)
    {
      if Fits(|p|) {
        bytes := bytes + p;
        err := None;
      } else {
        err := Some(NoSpace);
      }
    }
  }

  /** The errors a tar.Writer reports. */
  datatype WriterError =
    | WriteAfterClose
    | WriteTooLong
    | MissedWriting(remaining: nat)
    | SinkFailed(cause: SinkError)

  /** The entries `log` with `b` added to the content of the last one. */
  function AppendContent(log: seq<Entry>, b: seq<byte>): (r: seq<Entry>)
    ensures |r| == |log|
  {
    if log == [] then log
    else log[..|log| - 1] + [Entry(log[|log| - 1].header, log[|log| - 1].content + b)]
  }

  /** Starting a new entry sends the padding owed and the header. */
  lemma HeaderBytes(c: Codec, log: seq<Entry>, h: Header)
    ensures StreamBytes(c, [], log + [Entry(h, [])]) == StreamBytes(c, [], log) + PadAfter(c, [], log) + c.header(h)
    ensures PadAfter(c, [], log + [Entry(h, [])]) == c.padding(ContentSize(h))
  {
    StreamBytesAppend(c, [], log, [Entry(h, [])]);
    assert [Entry(h, [])][1..] == [];
  }

  /** Content written to the current entry is sent as it is and changes no padding. */
  lemma ContentBytes(c: Codec, log: seq<Entry>, b: seq<byte>)
    requires log != []
    ensures StreamBytes(c, [], AppendContent(log, b)) == StreamBytes(c, [], log) + b
    ensures PadAfter(c, [], AppendContent(log, b)) == PadAfter(c, [], log)
  {
    var init := log[..|log| - 1];
    var last := log[|log| - 1];
    var last' := Entry(last.header, last.content + b);
    assert log == init + [last];
    StreamBytesAppend(c, [], init, [last]);
    StreamBytesAppend(c, [], init, [last']);
    assert [last][1..] == [] && [last'][1..] == [];
  }

  /** Adding no content leaves the entries as they are. */
  lemma AppendNothing(log: seq<Entry>)
    ensures AppendContent(log, []) == log
  {
    if log != [] {
      var last := log[|log| - 1];
      assert last.content + [] == last.content;
      assert log == log[..|log| - 1] + [last];
    }
  }

  /**
   * A tar.Writer over io.MultiWriter(target, hash). `err` is the sticky
   * error (a failed write, or WriteAfterClose once closed), `nb` the
   * content bytes the current entry still expects and `pad` the
   * padding owed for it. The ghost `sent` is every byte the MultiWriter
   * has passed on, and `log` the entries written so far, the last one
   * holding the content written to it up to now.
   */
  class TarWriter {
    const target: Sink
    const hash: Sink
    const codec: Codec
    var nb: nat
    var pad: seq<byte>
    var err: Option<WriterError>
    ghost const targetBefore: seq<byte>
    ghost const hashBefore: seq<byte>
    ghost var sent: seq<byte>
    ghost var log: seq<Entry>

    /** The MultiWriter invariant: target and hash have both been given exactly `sent`. */
    ghost predicate Wired()
      reads this, target, hash
    {
      && target != hash
      && target.Valid()
      && hash.capacity.None?
      && target.bytes == targetBefore + sent
      && hash.bytes == hashBefore + sent
    }

    /** While no error has occurred, what was sent is the byte stream of `log`. */
    ghost predicate Valid()
      reads this, target, hash
    {
      && Wired()
      && (err.Some? ==> err.value.WriteAfterClose? || err.value.SinkFailed?)
      && (err.None? ==>
            && sent == StreamBytes(codec, [], log)
            && pad == PadAfter(codec, [], log)
            && (log == [] ==> nb == 0))
    }

    /** tar.NewWriter(io.MultiWriter(target, hash)) */
    constructor (target: Sink, hash: Sink, codec: Codec)
      requires target != hash && target.Valid() && hash.capacity.None?
      ensures Valid()
      ensures this.target == target && this.hash == hash && this.codec == codec
      ensures nb == 0 && pad == [] && err == None && sent == [] && log == []
      ensures targetBefore == target.bytes && hashBefore == hash.bytes
    {
      this.target := target;
      this.hash := hash;
      this.codec := codec;
      nb, pad, err := 0, [], None;
      targetBefore := target.bytes;
      hashBefore := hash.bytes;
      sent, log := [], [];
    }

    /** io.MultiWriter's Write: the target first, and the hash only if the target took the bytes. */
    method Emit(p: seq<byte>) returns (e: Option<SinkError>)
      requires Wired()
      modifies this, target, hash
      ensures Wired()
      ensures nb == old(nb) && pad == old(pad) && err == old(err) && log == old(log)
      ensures e.None? <==> target.capacity.None? || |old(target.bytes)| + |p| <= target.capacity.value
      ensures e.Some? ==> e.value == NoSpace
      ensures sent == if e.None? then old(sent) + p else old(sent)
      ensures target.bytes == if e.None? then old(target.bytes) + p else old(target.bytes)
    {
      e := target.Write(p);
      if e.None? {
        var _ := hash.Write(p);
        sent := sent + p;
      }
    }

    /**
     * Writer.Flush: sends the padding owed for the current entry, which
     * must be complete. An incomplete entry is reported without making
     * the error sticky.
     */
    method Flush() returns (e: Option<WriterError>)
      requires Valid()
      modifies this, target, hash
      ensures Wired()
      ensures log == old(log) && nb == old(nb)
      ensures err.Some? ==> err.value.WriteAfterClose? || err.value.SinkFailed?
      ensures old(err).Some? ==> e == old(err) && err == old(err) && sent == old(sent)
      ensures old(err).None? && old(nb) > 0 ==>
                e == Some(MissedWriting(old(nb))) && err == None && sent == old(sent) && pad == old(pad)
      ensures old(err).None? && old(nb) == 0 ==>
                (e.None? <==> target.capacity.None? || |old(target.bytes)| + |old(pad)| <= target.capacity.value) && err == e && (e.Some? ==> e == Some(SinkFailed(NoSpace)))
      ensures old(err).None? && old(nb) == 0 && e.None? ==>
                pad == [] && sent == old(sent) + old(pad) && target.bytes == old(target.bytes) + old(pad)
      ensures e.Some? ==> target.bytes == old(target.bytes)
    {
      if err.Some? {
        return err;
      }
      if nb > 0 {
        return Some(MissedWriting(nb));
      }
      var se := Emit(pad);
      if se.Some? {
        err := Some(SinkFailed(se.value));
        return err;
      }
      pad := [];
      return None;
    }

    /**
     * Writer.WriteHeader: flushes the padding owed for the previous
     * entry, then sends the header.
     */
    method WriteHeader(h: Header) returns (e: Option<WriterError>)
      requires Valid()
      modifies this, target, hash
      ensures Valid()
      ensures old(err).Some? ==> e == old(err) && err == old(err) && sent == old(sent)
      ensures old(err).None? && old(nb) > 0 ==>
                e == Some(MissedWriting(old(nb))) && err == None && nb == old(nb) && log == old(log) && sent == old(sent)
      ensures old(err).None? && old(nb) == 0 ==>
                (e.None? <==> target.capacity.None? || |old(target.bytes)| + |old(pad)| + |codec.header(h)| <= target.capacity.value) && err == e
      ensures old(err).None? && old(nb) == 0 && e.None? ==>
                log == old(log) + [Entry(h, [])] && nb == ContentSize(h)
      ensures e.Some? ==> e.value.SinkFailed? || e.value.WriteAfterClose? || e.value.MissedWriting?
    {
      e := Flush();
      if e.Some? {
        return;
      }
      ghost var log' := log + [Entry(h, [])];
      HeaderBytes(codec, log, h);
      assert sent + codec.header(h) == StreamBytes(codec, [], log');
      var se := Emit(codec.header(h));
      if se.Some? {
        err := Some(SinkFailed(se.value));
        return err;
      }
      log := log';
      nb := ContentSize(h);
      pad := codec.padding(ContentSize(h));
    }

    /**
     * Writer.Write: content of the current entry, never beyond what its
     * header announced. Writing too much sends what still fits and
     * reports WriteTooLong, which is not sticky.
     */
    method Write(b: seq<byte>) returns (n: nat, e: Option<WriterError>)
      requires Valid()
      modifies this, target, hash
      ensures Valid()
      ensures old(err).Some? ==> n == 0 && e == old(err) && err == old(err) && sent == old(sent)
      ensures old(err).None? ==>
                var k := if |b| <= old(nb) then |b| else old(nb);
                if k == 0 || target.capacity.None? || |old(target.bytes)| + k <= target.capacity.value then
                  && n == k && nb == old(nb) - k && err.None?
                  && log == AppendContent(old(log), b[..k])
                  && e == (if |b| > old(nb) then Some(WriteTooLong) else None)
                else
                  n == 0 && e == Some(SinkFailed(NoSpace)) && err == e
    {
      if err.Some? {
        return 0, err;
      }
      var chunk := if |b| > nb then b[..nb] else b;
      assert chunk == b[..|chunk|] && |chunk| == (if |b| <= nb then |b| else nb);
      n := 0;
      if |chunk| > 0 {
        var se := Emit(chunk);
        if se.Some? {
          err := Some(SinkFailed(se.value));
          return 0, err;
        }
        ContentBytes(codec, log, chunk);
        log := AppendContent(log, chunk);
        n := |chunk|;
        nb := nb - n;
      } else {
        AppendNothing(log);
      }
      if |b| > |chunk| {
        return n, Some(WriteTooLong);
      }
      return n, None;
    }

    /**
     * Writer.Close: flushes the padding owed and sends two zero blocks,
     * which completes the archive of `log`; afterwards every operation
     * fails with WriteAfterClose. Closing a closed Writer reports nothing.
     */
    method Close() returns (e: Option<WriterError>)
      requires Valid()
      modifies this, target, hash
      ensures Valid()
      ensures old(err) == Some(WriteAfterClose) ==> e == None && err == old(err) && sent == old(sent)
      ensures old(err).Some? && old(err) != Some(WriteAfterClose) ==>
                e == old(err) && err == old(err) && sent == old(sent)
      ensures old(err).None? ==> err == Some(WriteAfterClose)
      ensures old(err).None? && old(nb) > 0 ==> e == Some(MissedWriting(old(nb))) && sent == old(sent)
      ensures old(err).None? && old(nb) == 0 ==>
                (e.None? <==> old(target.Fits(|pad| + 2 * |codec.zeroBlock|)))
      ensures old(err).None? && old(nb) == 0 && e.None? ==> sent == ArchiveBytes(codec, old(log))
    {
      if err == Some(WriteAfterClose) {
        return None;
      }
      if err.Some? {
        return err;
      }
      e := Flush();
      if e.None? {
        var se := Emit(codec.zeroBlock);
        if se.Some? {
          e := Some(SinkFailed(se.value));
        } else {
          se := Emit(codec.zeroBlock);
          if se.Some? {
            e := Some(SinkFailed(se.value));
          }
        }
      }
      err := Some(WriteAfterClose);
    }
  }

  /** What Reader.Next reports. */
  datatype NextResult = Got(header: Header) | EOF | Failed(cause: ReadError)

  /**
   * A tar.Reader over a byte stream. `pos` counts the headers returned so
   * far; `rest` is the unread content of the entry last returned and
   * `restErr` the error reported once it is read. Which headers the
   * stream yields (pax global headers included) is up to the
   * uninterpreted `decode`.
   */
  class TarReader {
    const stream: Stream
    var pos: nat
    var rest: seq<byte>
    var restErr: Option<ReadError>

    ghost predicate Valid()
      reads this
    {
      pos <= |stream.entries|
    }

    /** tar.NewReader over the bytes `input`. */
    constructor (c: Codec, input: seq<byte>)
      ensures Valid() && stream == c.decode(input) && pos == 0 && rest == [] && restErr == None
    {
      stream := c.decode(input);
      pos, rest, restErr := 0, [], None;
    }

    /**
     * Reader.Next: the next header, positioned at its content, or the
     * end of the stream. A stream broken off inside the last entry's
     * content reports its error here too, once that entry is passed.
     */
    method Next() returns (r: NextResult)
      requires Valid()
      modifies this
      ensures Valid()
      ensures old(pos) < |stream.entries| ==>
                r == Got(stream.entries[old(pos)].header) && pos == old(pos) + 1
                && rest == stream.entries[old(pos)].content && restErr == ContentErr(stream, old(pos))
      ensures old(pos) == |stream.entries| ==>
                pos == old(pos) && rest == old(rest) && restErr == old(restErr)
                && r == (if stream.end.None? then EOF else Failed(stream.end.value))
    {
      if pos < |stream.entries| {
        r := Got(stream.entries[pos].header);
        rest := stream.entries[pos].content;
        restErr := ContentErr(stream, pos);
        pos := pos + 1;
      } else if stream.end.None? {
        r := EOF;
      } else {
        r := Failed(stream.end.value);
      }
    }

    /**
     * Reads the rest of the current entry's content (io.Copy from the
     * Reader): the bytes that are there, then the read error of a
     * broken-off entry, which stays the answer to later reads.
     */
    method ReadAll() returns (data: seq<byte>, err: Option<ReadError>)
      requires Valid()
      modifies this
      ensures Valid() && pos == old(pos) && restErr == old(restErr)
      ensures data == old(rest) && rest == []
      ensures err == old(restErr)
    {
      data := rest;
      err := restErr;
      rest := [];
    }
  }
}
