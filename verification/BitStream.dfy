/**
 Writing a configuration bitstream into the HWICAP core (bitstream_icap,
 bitstream_icap_helper and hwicapWrite in xdma-bit.c).
 */
module BitStream {
  import opened Words
  import opened Sequences
  import opened BitHeader

  const BITFILE_BUFFER_SIZE := 1024
  const EIO := 5
  const EINVAL := 22

  function BigEndian(a: Byte, b: Byte, c: Byte, d: Byte): Word {
    Push(Push(Push(a, b), c), d)
  }

  function WordAt(buf: seq<Byte>, at: nat): Word
    requires at + 4 <= |buf|
  {
    BigEndian(buf[at], buf[at + 1], buf[at + 2], buf[at + 3])
  }

  /** Words `first` to `end` - 1 of a byte buffer. */
  function WordsOf(buf: seq<Byte>, first: nat, end: nat): (r: seq<Word>)
    requires first <= end && 4 * end <= |buf|
    ensures |r| == end - first
    decreases end
  {
    if first == end then [] else WordsOf(buf, first, end - 1) + [WordAt(buf, 4 * (end - 1))]
  }

  lemma {:induction false} WordsAppend(buf: seq<Byte>, a: nat, b: nat, c: nat)
    requires a <= b <= c && 4 * c <= |buf|
    ensures WordsOf(buf, a, b) + WordsOf(buf, b, c) == WordsOf(buf, a, c)
    decreases c
  {
    if b < c {
      WordsAppend(buf, a, b, c - 1);
      Associates(WordsOf(buf, a, b), WordsOf(buf, b, c - 1), [WordAt(buf, 4 * (c - 1))]);
    }
  }

  /** The words' bytes, most significant first. */
  function BytesOf(words: seq<Word>): (r: seq<Byte>)
    ensures |r| == 4 * |words|
  {
    if words == [] then [] else BytesOf(words[..|words| - 1]) + Bytes32(words[|words| - 1])
  }

  /** The words carry every byte of a payload of whole words, once and in order. */
  lemma {:induction false} WordsCarryBytes(buf: seq<Byte>, n: nat)
    requires 4 * n <= |buf|
    ensures BytesOf(WordsOf(buf, 0, n)) == buf[..4 * n]
    decreases n
  {
    if n > 0 {
      WordsCarryBytes(buf, n - 1);
      LastWord(WordsOf(buf, 0, n - 1), WordAt(buf, 4 * (n - 1)));
      OneWord(buf, 4 * (n - 1));
    }
  }

  lemma LastWord(words: seq<Word>, w: Word)
    ensures BytesOf(words + [w]) == BytesOf(words) + Bytes32(w)
  {
    assert (words + [w])[..|words|] == words;
  }

  lemma OneWord(buf: seq<Byte>, at: nat)
    requires at + 4 <= |buf|
    ensures buf[..at + 4] == buf[..at] + Bytes32(WordAt(buf, at))
  {
    FourBytes(buf[at], buf[at + 1], buf[at + 2], buf[at + 3], WordAt(buf, at));
  }

  lemma Appended(start: seq<Word>, now: seq<Word>, buf: seq<Byte>, a: nat, b: nat, c: nat)
    requires a <= b <= c && 4 * c <= |buf| && now == start + WordsOf(buf, a, b) + WordsOf(buf, b, c)
    ensures now == start + WordsOf(buf, a, c)
  {
    WordsAppend(buf, a, b, c);
    Associates(start, WordsOf(buf, a, b), WordsOf(buf, b, c));
  }

  lemma QuarterStep(at: nat, sent: nat, size: nat, length: nat)
    requires at == 4 * sent && at < length
    requires size == if length - at > BITFILE_BUFFER_SIZE then BITFILE_BUFFER_SIZE else length - at
    ensures if at + size < length then at + size == 4 * (sent + size / 4) else sent + size / 4 == length / 4
  {
  }

  // ----- What the core lets through -----

  /** Words written, answers used up, and whether all went well. */
  datatype Fed = Fed(sent: nat, readings: nat, starts: nat, ok: bool)

  /**
   Feeding words to the core after `sent` others: `vacancy` answers the t-th reading
   of the free space, `done` the t-th start of a transfer.
   */
  function Feed(vacancy: nat -> int, done: nat -> bool, readings: nat, starts: nat, sent: nat, words: nat): Fed
    decreases words
  {
    if words == 0 then Fed(sent, readings, starts, true)
    else if vacancy(readings) <= 0 then Fed(sent, readings + 1, starts, false)
    else
      var n := if vacancy(readings) < words then vacancy(readings) else words;
      if !done(starts) then Fed(sent + n, readings + 1, starts + 1, false)
      else Feed(vacancy, done, readings + 1, starts + 1, sent + n, words - n)
  }

  /** Feeding `length` bytes in pieces of at most 1024. */
  function FeedPieces(vacancy: nat -> int, done: nat -> bool, readings: nat, starts: nat, sent: nat, length: nat): Fed
    decreases length
  {
    if length == 0 then Fed(sent, readings, starts, true)
    else
      var n := if length > BITFILE_BUFFER_SIZE then BITFILE_BUFFER_SIZE else length;
      var f := Feed(vacancy, done, readings, starts, sent, n / 4);
      if !f.ok then f else FeedPieces(vacancy, done, f.readings, f.starts, f.sent, length - n)
  }

  /** Every answer used was good: there was room, and the transfer ended in time. */
  predicate Fine(vacancy: nat -> int, done: nat -> bool, r0: nat, r1: nat, s0: nat, s1: nat) {
    (forall t :: r0 <= t < r1 ==> vacancy(t) > 0) && (forall t :: s0 <= t < s1 ==> done(t))
  }

  /**
   Feeding succeeds if and only if every answer it used was good. Then everything is
   written; if it fails although no transfer timed out, words are missing.
   */
  lemma {:induction false} FeedOkIff(vacancy: nat -> int, done: nat -> bool, readings: nat, starts: nat, sent: nat, words: nat)
    ensures var f := Feed(vacancy, done, readings, starts, sent, words);
      && readings <= f.readings && starts <= f.starts && sent <= f.sent <= sent + words
      && (words > 0 ==> readings < f.readings)
      && (f.ok <==> Fine(vacancy, done, readings, f.readings, starts, f.starts))
      && (f.ok ==> f.sent == sent + words)
      && (!f.ok && (forall t :: starts <= t < f.starts ==> done(t)) ==> f.sent < sent + words)
    decreases words
  {
    if words > 0 && vacancy(readings) > 0 && done(starts) {
      var n := if vacancy(readings) < words then vacancy(readings) else words;
      FeedOkIff(vacancy, done, readings + 1, starts + 1, sent + n, words - n);
    }
  }

  /** The free space the readings reported. */
  function Room(vacancy: nat -> int, r0: nat, r1: nat): nat
    decreases r1 - r0
  {
    if r0 >= r1 then 0 else (if vacancy(r0) > 0 then vacancy(r0) else 0) + Room(vacancy, r0 + 1, r1)
  }

  /** Never more words than there was room for. */
  lemma {:induction false} FeedHasRoom(vacancy: nat -> int, done: nat -> bool, readings: nat, starts: nat, sent: nat, words: nat)
    ensures var f := Feed(vacancy, done, readings, starts, sent, words);
      readings <= f.readings && f.sent - sent <= Room(vacancy, readings, f.readings)
    decreases words
  {
    if words > 0 && vacancy(readings) > 0 {
      var n := if vacancy(readings) < words then vacancy(readings) else words;
      if done(starts) {
        FeedOkIff(vacancy, done, readings + 1, starts + 1, sent + n, words - n);
        FeedHasRoom(vacancy, done, readings + 1, starts + 1, sent + n, words - n);
      }
    }
  }

  lemma {:induction false} PiecesOkIff(vacancy: nat -> int, done: nat -> bool, readings: nat, starts: nat, sent: nat, length: nat)
    ensures var f := FeedPieces(vacancy, done, readings, starts, sent, length);
      && readings <= f.readings && starts <= f.starts && sent <= f.sent <= sent + length / 4
      && (length >= 4 ==> readings < f.readings)
      && (f.ok <==> Fine(vacancy, done, readings, f.readings, starts, f.starts))
      && (f.ok ==> f.sent == sent + length / 4)
      && (!f.ok && (forall t :: starts <= t < f.starts ==> done(t)) ==> f.sent < sent + length / 4)
    decreases length
  {
    if length > 0 {
      var n := if length > BITFILE_BUFFER_SIZE then BITFILE_BUFFER_SIZE else length;
      var f := Feed(vacancy, done, readings, starts, sent, n / 4);
      FeedOkIff(vacancy, done, readings, starts, sent, n / 4);
      if f.ok {
        PiecesOkIff(vacancy, done, f.readings, f.starts, f.sent, length - n);
      }
    }
  }

  // ----- The loader -----

  class Hwicap {
    const vacancy: nat -> int
    const done: nat -> bool
    /** Whether the FPGA reports the end of the download in time. */
    const finished: bool
    var readings: nat
    var starts: nat
    /** The words in the write FIFO, in the order of writing. */
    var written: seq<Word>

    constructor (vacancy: nat -> int, done: nat -> bool, finished: bool)
      ensures this.vacancy == vacancy && this.done == done && this.finished == finished
      ensures written == [] && readings == 0 && starts == 0
    {
      this.vacancy := vacancy;
      this.done := done;
      this.finished := finished;
      readings, starts, written := 0, 0, [];
    }

    /** hwicapWrite, for `size` words of buf from word `from` on. */
    method Write(buf: seq<Byte>, from: nat, size: nat) returns (rc: int)
      requires 4 * (from + size) <= |buf|
      modifies this`written, this`starts
      ensures written == old(written) + WordsOf(buf, from, from + size)
      ensures rc == (if done(old(starts)) then 0 else -EIO) && starts == old(starts) + 1
    {
      var i := 0;
      while i < size
        invariant 0 <= i <= size && starts == old(starts) && written == old(written) + WordsOf(buf, from, from + i)
      {
        written := written + [WordAt(buf, 4 * (from + i))];
        i := i + 1;
      }
      rc := if done(starts) then 0 else -EIO;
      starts := starts + 1;
    }

    /** One round of bitstream_icap_helper: as many words as there is room for. */
    method Burst(buf: seq<Byte>, from: nat, remainWord: nat) returns (err: int, n: nat)
      requires 0 < remainWord && 4 * (from + remainWord) <= |buf|
      modifies this`written, this`starts, this`readings
      ensures err == -EIO || (err == 0 && n > 0)
      ensures n == if vacancy(old(readings)) <= 0 then 0 else if vacancy(old(readings)) < remainWord then vacancy(old(readings)) else remainWord
      ensures written == old(written) + WordsOf(buf, from, from + n)
      ensures Feed(vacancy, done, old(readings), old(starts), from, remainWord)
        == if err != 0 then Fed(from + n, readings, starts, false)
           else Feed(vacancy, done, readings, starts, from + n, remainWord - n)
    {
      var wrFifoVacancy := vacancy(readings);
      readings := readings + 1;
      if wrFifoVacancy <= 0 {
        return -EIO, 0;
      }
      n := if wrFifoVacancy < remainWord then wrFifoVacancy else remainWord;
      err := Write(buf, from, n);
    }

    /** bitstream_icap_helper, from word `from` of buf on; `sent` is the first word that did not get written. */
    method Helper(buf: seq<Byte>, from: nat, wordCount: nat) returns (err: int, sent: nat)
      requires 4 * (from + wordCount) <= |buf|
      modifies this`written, this`starts, this`readings
      ensures from <= sent <= from + wordCount && written == old(written) + WordsOf(buf, from, sent)
      ensures Fed(sent, readings, starts, err == 0) == Feed(vacancy, done, old(readings), old(starts), from, wordCount)
      ensures err == 0 || err == -EIO
    {
      err, sent := 0, from;
      ghost var all := Feed(vacancy, done, readings, starts, from, wordCount);
      var remainWord := wordCount;
      while remainWord > 0
        invariant 0 <= remainWord == from + wordCount - sent && from <= sent
        invariant written == old(written) + WordsOf(buf, from, sent)
        invariant err == 0
        invariant Feed(vacancy, done, readings, starts, sent, remainWord) == all
        decreases remainWord
      {
        var wordWritten;
        err, wordWritten := Burst(buf, sent, remainWord);
        Appended(old(written), written, buf, from, sent, sent + wordWritten);
        sent := sent + wordWritten;
        if err != 0 {
          return;
        }
        remainWord := remainWord - wordWritten;
      }
    }

    /** One piece of the payload, from word `from` on. */
    method Piece(payload: seq<Byte>, from: nat, numCharsRead: nat) returns (err: int, sent: nat)
      requires 4 * from < |payload| && numCharsRead ==
        if |payload| - 4 * from > BITFILE_BUFFER_SIZE then BITFILE_BUFFER_SIZE else |payload| - 4 * from
      modifies this`written, this`starts, this`readings
      ensures from <= sent <= from + numCharsRead / 4 && (err == 0 ==> sent == from + numCharsRead / 4)
      ensures written == old(written) + WordsOf(payload, from, sent)
      ensures FeedPieces(vacancy, done, old(readings), old(starts), from, |payload| - 4 * from)
        == if err != 0 then Fed(sent, readings, starts, false)
           else FeedPieces(vacancy, done, readings, starts, sent, |payload| - 4 * from - numCharsRead)
    {
      FeedOkIff(vacancy, done, readings, starts, from, numCharsRead / 4);
      err, sent := Helper(payload, from, numCharsRead / 4);
    }

    /**
     The payload in pieces of at most 1024 bytes. A failing piece ends it with `ok`
     false; the words written are in any case the first words of the payload.
     */
    method Pieces(payload: seq<Byte>) returns (ok: bool, sent: nat)
      modifies this`written, this`starts, this`readings
      ensures 4 * sent <= |payload| && written == old(written) + WordsOf(payload, 0, sent)
      ensures Fed(sent, readings, starts, ok) == FeedPieces(vacancy, done, old(readings), old(starts), 0, |payload|)
    {
      var byteRead := 0;
      ok, sent := true, 0;
      ghost var all := FeedPieces(vacancy, done, readings, starts, 0, |payload|);
      while byteRead < |payload|
        invariant 4 * sent <= byteRead <= |payload| && (byteRead < |payload| ==> byteRead == 4 * sent)
        invariant written == old(written) + WordsOf(payload, 0, sent)
        invariant FeedPieces(vacancy, done, readings, starts, sent, |payload| - byteRead) == all
        decreases |payload| - byteRead
      {
        var numCharsRead := |payload| - byteRead;
        if numCharsRead > BITFILE_BUFFER_SIZE {
          numCharsRead := BITFILE_BUFFER_SIZE;
        }
        ghost var before := sent;
        var err;
        err, sent := Piece(payload, sent, numCharsRead);
        Appended(old(written), written, payload, 0, before, sent);
        QuarterStep(byteRead, before, numCharsRead, |payload|);
        if err != 0 {
          return false, sent;
        }
        byteRead := byteRead + numCharsRead;
      }
    }

    /**
     bitstream_icap for a buffer of `length` bytes. Neither the parser nor the download
     stops at its end, so `memory` is the buffer and as much as they come to
     read behind it. A failing piece does not set the return code: 0 means that the
     payload is in and the FPGA has finished, or else that a piece failed.
     */
    method Download(memory: seq<Byte>, length: nat) returns (err: int, sent: nat)
      requires 0 < length < TWO_32 && length <= |memory| && Reaches(memory)
      modifies this`written, this`starts, this`readings
      ensures var p := Parse(Window(memory));
        if p.Rejected? then err == -EINVAL && written == old(written)
        else Downloaded(memory, length, p.next, p.value.bitstreamLength, err, sent)
    {
      var p := ParseHeader(Window(memory));
      if !p.Ok? {
        return -EINVAL, 0;
      }
      ParsedSizes(memory);
      err, sent := DownloadPayload(memory, length, p.next, p.value.bitstreamLength);
    }

    /**
     The outcome of a download whose header ends at `next` and announces `size` bytes: the
     words written and the code, what a code of 0 means, and which short files pass.
     */
    twostate predicate Downloaded(memory: seq<Byte>, length: nat, next: nat, size: nat, err: int, sent: nat)
      requires next + size <= |memory|
      reads this
    {
      var f := FeedPieces(vacancy, done, old(readings), old(starts), 0, size);
      && (if Sum32(next, size) > length then err == -EINVAL && written == old(written)
          else
            && f == Fed(sent, readings, starts, f.ok) && 4 * sent <= size
            && written == old(written) + WordsOf(memory[next..next + size], 0, sent)
            && err == (if f.ok && !finished then -EIO else 0)
            && (err == 0 ==> (Loaded(sent, size, old(starts)) <==> Fine(vacancy, done, old(readings), readings, old(starts), starts))))
      && (next <= length ==> (err != -EINVAL && next + size > length <==> next + size >= TWO_32))
    }

    /** The size check and what follows it. */
    method DownloadPayload(memory: seq<Byte>, length: nat, next: nat, size: nat) returns (err: int, sent: nat)
      requires length < TWO_32 && next < TWO_32 && size < TWO_32 && next + size <= |memory|
      modifies this`written, this`starts, this`readings
      ensures Downloaded(memory, length, next, size, err, sent)
    {
      if next <= length {
        SizeCheckIff(next, size, length);
      }
      if Sum32(next, size) > length {
        return -EINVAL, 0;
      }
      err, sent := Load(memory[next..next + size]);
    }

    /** The payload, and the end of the download. */
    method Load(payload: seq<Byte>) returns (err: int, sent: nat)
      modifies this`written, this`starts, this`readings
      ensures var f := FeedPieces(vacancy, done, old(readings), old(starts), 0, |payload|);
        f == Fed(sent, readings, starts, f.ok) && err == if f.ok && !finished then -EIO else 0
      ensures 4 * sent <= |payload| && written == old(written) + WordsOf(payload, 0, sent)
      ensures err == 0 ==>
        (Loaded(sent, |payload|, old(starts)) <==> Fine(vacancy, done, old(readings), readings, old(starts), starts))
    {
      var ok;
      ok, sent := Pieces(payload);
      PiecesOkIff(vacancy, done, old(readings), old(starts), 0, |payload|);
      err := 0;
      if ok && !finished {
        err := -EIO;
      }
    }

    /** The whole payload is in, no transfer has timed out, and the FPGA has finished. */
    ghost predicate Loaded(sent: nat, size: nat, since: nat)
      reads this
    {
      sent == size / 4 && finished && forall t :: since <= t < starts ==> done(t)
    }
  }

  /** What an index of 32 bits reaches. */
  function Window(memory: seq<Byte>): seq<Byte> {
    if |memory| < TWO_32 then memory else memory[..TWO_32 - 1]
  }

  /** The memory goes as far as the parser and the download read. */
  predicate Reaches(memory: seq<Byte>) {
    var p := Parse(Window(memory));
    !p.Outside? && (p.Ok? ==> p.next + p.value.bitstreamLength <= |memory|)
  }

  /** The sum of two lengths in 32 bits. */
  function Sum32(a: nat, b: nat): int {
    if a + b < TWO_32 then a + b else a + b - TWO_32
  }

  lemma ParsedSizes(memory: seq<Byte>)
    ensures var p := Parse(Window(memory)); p.Ok? ==> p.next < TWO_32 && p.value.bitstreamLength < TWO_32
  {
    var p := Parse(Window(memory));
    if p.Ok? {
      ParseExact(Window(memory), p.value, p.next);
    }
  }

  /** With the header inside the file, the check lets a file pass that is too short exactly when the sum overflows. */
  lemma SizeCheckIff(next: nat, size: nat, length: nat)
    requires next < TWO_32 && size < TWO_32 && length < TWO_32 && next <= length
    ensures Sum32(next, size) <= length < next + size <==> next + size >= TWO_32
  {
  }

  /** A core without room: nothing of the file is written, and the loader returns 0. */
  method ShortDownload(h: Header, filler: Byte, payload: seq<Byte>) returns (err: int, written: seq<Word>)
    requires WellFormed(h) && 4 <= |payload| == h.bitstreamLength && |Print(h, filler)| + |payload| < TWO_32
    ensures err == 0 && written == []
  {
    RoundTrip(h, filler, payload);
    var icap := new Hwicap(t => 0, t => true, true);
    var sent;
    err, sent := icap.Download(Print(h, filler) + payload, |Print(h, filler)| + |payload|);
    written := icap.written;
  }

  /** A file that is nothing but a header of 26 bytes passes the size check, although the header announces 4 GB. */
  lemma EmptyFilePasses()
    ensures var h := Header(1, [0], [0], [0], [0], 0xFFFF_FFFF);
      WellFormed(h) && |Print(h, 0)| == 26 && Parse(Print(h, 0)) == Ok(h, 26) && Sum32(26, h.bitstreamLength) == 25
  {
    var h := Header(1, [0], [0], [0], [0], 0xFFFF_FFFF);
    RoundTrip(h, 0, []);
    assert Print(h, 0) + [] == Print(h, 0);
  }

  /**
   A printed header followed by its payload of whole words: the words of a complete
   download carry exactly the payload.
   */
  lemma FileStreams(h: Header, filler: Byte, header: seq<Byte>, payload: seq<Byte>, words: nat)
    requires WellFormed(h) && header == Print(h, filler) && |header| + |payload| < TWO_32
    requires |payload| == h.bitstreamLength == 4 * words
    ensures Parse(header + payload) == Ok(h, |header|)
    ensures BytesOf(WordsOf((header + payload)[|header|..|header| + |payload|], 0, words)) == payload
  {
    RoundTrip(h, filler, payload);
    AfterHeader(header, payload);
    WordsCarryBytes(payload, words);
    assert payload[..4 * words] == payload;
  }

  lemma AfterHeader(header: seq<Byte>, payload: seq<Byte>)
    ensures (header + payload)[|header|..|header| + |payload|] == payload
  {
  }
}
