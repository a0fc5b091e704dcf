/**
 * The download side of a package: the status line and headers sendFile
 * computes for a byte range, and the loop that streams the range in chunks
 * of 16 KiB. The file is its sequence of bytes; its size is the `filesize`
 * field, which is refreshed from the stored file just before sendFile runs.
 */
module Download {
  import opened Wrappers
  import opened Decimal
  import opened RangeHeader

  /** Bytes requested from the file per pass of the loop (1024 * 16). */
  const ChunkSize: nat := 16384

  function Flatten(chunks: seq<seq<bv8>>): seq<bv8> {
    if chunks == [] then [] else chunks[0] + Flatten(chunks[1..])
  }

  lemma FlattenAppend(a: seq<seq<bv8>>, b: seq<seq<bv8>>)
    ensures Flatten(a + b) == Flatten(a) + Flatten(b)
  {
    if a != [] {
      assert (a + b)[0] == a[0];
      assert (a + b)[1..] == a[1..] + b;
      FlattenAppend(a[1..], b);
      assert Flatten(a + b) == a[0] + (Flatten(a[1..]) + Flatten(b));
    } else {
      assert a + b == b;
    }
  }

  // ---------------------------------------------------------------------
  // Status and headers
  // ---------------------------------------------------------------------

  /** The value of the Content-Range header: "bytes begin-end/size". */
  function ContentRange(begin: nat, end: int, size: nat): string {
    "bytes " + (NatToDecimal(begin) + ("-" + (IntToDecimal(end) + ("/" + NatToDecimal(size)))))
  }

  datatype RangeFields = RangeFields(begin: nat, end: int, size: nat)

  /** A leading non-empty run of digits: its value and what follows it. */
  function SplitNat(t: string): Option<(nat, string)> {
    var e := DigitsEnd(t, 0);
    if e == 0 then None
    else
      DigitSlice(t, 0, e);
      Some((DecimalValue(t[..e]), t[e..]))
  }

  /** A leading, optionally negative, decimal integer and what follows it. */
  function SplitInt(t: string): Option<(int, string)> {
    if t != [] && t[0] == '-' then
      match SplitNat(t[1..])
      case None => None
      case Some((n, rest)) => Some((0 - n, rest))
    else
      match SplitNat(t)
      case None => None
      case Some((n, rest)) => Some((n as int, rest))
  }

  /** How a client reads a Content-Range value back into its three numbers. */
  function ParseContentRange(s: string): Option<RangeFields> {
    if |s| < 6 || s[..6] != "bytes " then None
    else match SplitNat(s[6..])
      case None => None
      case Some((begin, r1)) =>
        if r1 == [] || r1[0] != '-' then None
        else match SplitInt(r1[1..])
          case None => None
          case Some((end, r2)) =>
            if r2 == [] || r2[0] != '/' then None
            else match SplitNat(r2[1..])
              case None => None
              case Some((size, r3)) => if r3 == [] then Some(RangeFields(begin, end, size)) else None
  }

  /** The decimal form of `n`, followed by anything but a digit, splits back into `n` and the rest. */
  lemma SplitNatDecimal(n: nat, rest: string)
    requires rest == [] || !IsDigit(rest[0])
    ensures SplitNat(NatToDecimal(n) + rest) == Some((n, rest))
  {
    var d := NatToDecimal(n);
    var t := d + rest;
    assert t[..|d|] == d && t[|d|..] == rest;
    SliceDigits(t, 0, d);
    DigitsEndAt(t, 0, |d|);
    DecimalRoundTrip(n);
  }

  /** The decimal form of `i`, followed by anything but a digit, splits back into `i` and the rest. */
  lemma SplitIntDecimal(i: int, rest: string)
    requires rest == [] || !IsDigit(rest[0])
    ensures SplitInt(IntToDecimal(i) + rest) == Some((i, rest))
  {
    if i < 0 {
      SplitIntNegative(-i, rest);
    } else {
      SplitIntNonNegative(i, rest);
    }
  }

  lemma SplitIntNegative(n: nat, rest: string)
    requires n > 0 && (rest == [] || !IsDigit(rest[0]))
    ensures SplitInt(IntToDecimal(0 - n) + rest) == Some((0 - n, rest))
  {
    var digits := NatToDecimal(n);
    assert IntToDecimal(0 - n) == "-" + digits;
    SplitNegative(digits, rest);
    SplitNatDecimal(n, rest);
  }

  lemma SplitIntNonNegative(n: nat, rest: string)
    requires rest == [] || !IsDigit(rest[0])
    ensures SplitInt(IntToDecimal(n) + rest) == Some((n, rest))
  {
    var digits := NatToDecimal(n);
    assert IntToDecimal(n) == digits;
    assert IsDigit(digits[0]);
    SplitNonNegative(digits, rest);
    SplitNatDecimal(n, rest);
  }

  lemma SplitNonNegative(digits: string, rest: string)
    requires digits != [] && digits[0] != '-'
    ensures SplitInt(digits + rest)
         == match SplitNat(digits + rest) case None => None case Some((n, r)) => Some((n as int, r))
  {
    assert (digits + rest)[0] == digits[0];
  }

  lemma SplitNegative(digits: string, rest: string)
    ensures ("-" + digits + rest)[1..] == digits + rest
    ensures SplitInt("-" + digits + rest)
         == match SplitNat(digits + rest) case None => None case Some((n, r)) => Some((0 - n, r))
  {
    assert ("-" + digits + rest)[1..] == digits + rest;
  }

  /** The Content-Range header carries exactly the begin, end and size it was built from. */
  lemma ContentRangeRoundTrip(begin: nat, end: int, size: nat)
    ensures ParseContentRange(ContentRange(begin, end, size)) == Some(RangeFields(begin, end, size))
  {
    var b, e, z := NatToDecimal(begin), IntToDecimal(end), NatToDecimal(size);
    ContentRangeParts(b, e, z);
    var r2 := "/" + z;
    var r1 := "-" + (e + r2);
    SplitNatDecimal(begin, r1);
    SplitIntDecimal(end, r2);
    SplitNatDecimal(size, []);
  }

  /** Where the pieces of "bytes b-e/z" lie, and what each separator leaves behind it. */
  lemma ContentRangeParts(b: string, e: string, z: string)
    ensures var r1 := "-" + (e + ("/" + z));
      var s := "bytes " + (b + r1);
      && s[..6] == "bytes " && s[6..] == b + r1
      && r1[1..] == e + ("/" + z)
      && ("/" + z)[1..] == z + []
  {
  }

  datatype Head = Head(status: nat, contentLength: int, contentRange: string)

  /** Status, Content-Length and Content-Range for the resolved range of a file of `size` bytes. */
  function ResponseHead(size: nat, r: ByteRange): Head {
    Head(if r.begin > 0 || r.end < size - 1 then 206 else 200,
         r.end - r.begin + 1,
         ContentRange(r.begin, r.end, size))
  }

  // ---------------------------------------------------------------------
  // The streaming loop
  // ---------------------------------------------------------------------

  /** Passes the loop as written makes from `begin` while the peer stays connected: it runs while currentPosition < end. */
  function Passes(begin: nat, end: int): (n: nat)
    ensures n <= PassesFixed(begin, end)
  {
    if begin < end then
      DivisionMonotone(end - begin - 1, end - begin);
      (end - begin - 1) / ChunkSize + 1
    else 0
  }

  lemma DivisionMonotone(a: nat, b: nat)
    requires a <= b
    ensures a / ChunkSize <= b / ChunkSize
  {
    var qa, qb := a / ChunkSize, b / ChunkSize;
    assert ChunkSize * qa <= a <= b < ChunkSize * qb + ChunkSize;
  }

  /** Passes the corrected loop makes, running while currentPosition <= end. */
  function PassesFixed(begin: nat, end: int): nat {
    if begin <= end then (end - begin) / ChunkSize + 1 else 0
  }

  /** Pass i starts at begin + 16384 i, and each loop makes it exactly when its test holds there. */
  lemma PassesBound(begin: nat, end: int, i: nat)
    ensures i < Passes(begin, end) <==> begin + ChunkSize * i < end
    ensures i < PassesFixed(begin, end) <==> begin + ChunkSize * i <= end
    ensures Passes(begin, end) <= PassesFixed(begin, end)
  {
    if begin < end {
      var q := (end - begin - 1) / ChunkSize;
      assert ChunkSize * q <= end - begin - 1 < ChunkSize * q + ChunkSize;
      if i <= q {
        assert ChunkSize * i <= ChunkSize * q;
      } else {
        assert ChunkSize * i >= ChunkSize * (q + 1);
      }
    }
    if begin <= end {
      var q := (end - begin) / ChunkSize;
      assert ChunkSize * q <= end - begin < ChunkSize * q + ChunkSize;
      if i <= q {
        assert ChunkSize * i <= ChunkSize * q;
      } else {
        assert ChunkSize * i >= ChunkSize * (q + 1);
      }
    }
  }

  /**
   * The chunks printed by the first n passes of the loop: pass i reads
   * min(16384, end - p + 1) bytes at p = begin + 16384 i.
   */
  function SentUpTo(file: seq<bv8>, begin: nat, end: int, n: nat): (chunks: seq<seq<bv8>>)
    requires end < |file| && n <= PassesFixed(begin, end)
    ensures |chunks| == n
    ensures forall k :: 0 <= k < n ==> 1 <= |chunks[k]| <= ChunkSize
  {
    if n == 0 then []
    else
      PassesBound(begin, end, n - 1);
      var p := begin + ChunkSize * (n - 1);
      SentUpTo(file, begin, end, n - 1) + [file[p..p + Min(ChunkSize, end - p + 1)]]
  }

  /**
   * The first n passes print the bytes of the file from begin on, in order,
   * without gap or repetition: 16384 per pass, but never past end.
   */
  lemma {:induction false} SentUpToSpan(file: seq<bv8>, begin: nat, end: int, n: nat)
    requires end < |file| && 0 < n <= PassesFixed(begin, end)
    ensures begin + Min(ChunkSize * n, end - begin + 1) <= |file|
    ensures Flatten(SentUpTo(file, begin, end, n)) == file[begin..begin + Min(ChunkSize * n, end - begin + 1)]
  {
    PassesBound(begin, end, n - 1);
    var p := begin + ChunkSize * (n - 1);
    var q := begin + Min(ChunkSize * n, end - begin + 1);
    PassEnd(begin, end, n);
    var before := SentUpTo(file, begin, end, n - 1);
    assert SentUpTo(file, begin, end, n) == before + [file[p..q]];
    if n > 1 {
      SentUpToSpan(file, begin, end, n - 1);
    }
    FlattenStep(file, begin, p, q, before);
  }

  /** One more chunk, read where the bytes printed so far end, extends them. */
  lemma FlattenStep(file: seq<bv8>, begin: nat, p: nat, q: nat, before: seq<seq<bv8>>)
    requires begin <= p <= q <= |file|
    requires before == [] ==> p == begin
    requires before != [] ==> Flatten(before) == file[begin..p]
    ensures Flatten(before + [file[p..q]]) == file[begin..q]
  {
    var last := file[p..q];
    FlattenAppend(before, [last]);
    assert Flatten([last]) == last by {
      assert [last][1..] == [];
    }
    assert file[begin..p] + file[p..q] == file[begin..q];
  }

  /** Pass n - 1 ends where the first n passes' bytes end. */
  lemma PassEnd(begin: nat, end: int, n: nat)
    requires 0 < n && begin + ChunkSize * (n - 1) <= end
    ensures var p := begin + ChunkSize * (n - 1);
      && p + Min(ChunkSize, end - p + 1) == begin + Min(ChunkSize * n, end - begin + 1)
      && (n > 1 ==> begin + Min(ChunkSize * (n - 1), end - begin + 1) == p)
  {
    assert ChunkSize * n == ChunkSize * (n - 1) + ChunkSize;
  }

  /**
   * What a run of the loop delivers. After n passes the printed bytes are the
   * range's first min(16384 n, end - begin + 1). When the loop as written runs
   * to its end, that is end - begin + 1 bytes only when begin < end and
   * end - begin is not a multiple of 16384: one byte fewer when it is, and
   * nothing when begin >= end. The corrected loop prints the whole range.
   */
  lemma {:induction false} LoopDelivery(file: seq<bv8>, begin: nat, end: int, n: nat, chunks: seq<seq<bv8>>)
    requires end < |file| && n <= PassesFixed(begin, end)
    requires chunks == SentUpTo(file, begin, end, n)
    ensures n == 0 ==> chunks == []
    ensures n > 0 ==> Flatten(chunks) == file[begin..begin + Min(ChunkSize * n, end - begin + 1)]
    ensures n == Passes(begin, end) && begin < end ==>
      Flatten(chunks) == file[begin..if (end - begin) % ChunkSize != 0 then end + 1 else end]
    ensures n == PassesFixed(begin, end) && begin <= end ==> Flatten(chunks) == file[begin..end + 1]
  {
    if n > 0 {
      SentUpToSpan(file, begin, end, n);
    }
    if n == Passes(begin, end) && begin < end {
      var d := end - begin;
      var q := (d - 1) / ChunkSize;
      var r := (d - 1) % ChunkSize;
      assert d - 1 == ChunkSize * q + r;
      assert ChunkSize * n == d - 1 - r + ChunkSize;
      if r == ChunkSize - 1 {
        assert d == ChunkSize * (q + 1);
      } else {
        assert d == ChunkSize * q + (r + 1) && 0 < r + 1 < ChunkSize;
        assert d % ChunkSize == r + 1;
      }
    }
    if n == PassesFixed(begin, end) && begin <= end {
      var q := (end - begin) / ChunkSize;
      assert end - begin < ChunkSize * q + ChunkSize;
    }
  }

  /**
   * The loop of sendFile, as written. `closeAfter` is the number of times
   * connection_status() still reports a connected peer. The file pointer
   * starts where fseek put it and moves by what fread returns.
   */
  method StreamRange(file: seq<bv8>, begin: nat, end: int, closeAfter: nat) returns (chunks: seq<seq<bv8>>)
    requires end < |file|
    ensures chunks == SentUpTo(file, begin, end, Min(closeAfter, Passes(begin, end)))
    ensures chunks != [] ==> Flatten(chunks) == file[begin..begin + Min(ChunkSize * |chunks|, end - begin + 1)]
    ensures begin >= end ==> chunks == []
    ensures closeAfter >= Passes(begin, end) && begin < end ==>
      Flatten(chunks) == file[begin..if (end - begin) % ChunkSize != 0 then end + 1 else end]
  {
    var currentPosition := begin;
    var filePointer := begin;
    var eof := false;
    var checks := 0;
    chunks := [];
    while !eof && currentPosition < end && checks < closeAfter
      invariant checks <= closeAfter && checks <= Passes(begin, end)
      invariant currentPosition == begin + ChunkSize * checks
      invariant currentPosition < end ==> filePointer == currentPosition
      invariant !eof
      invariant chunks == SentUpTo(file, begin, end, checks)
      decreases end - currentPosition
    {
      PassesBound(begin, end, checks);
      var want := Min(ChunkSize, end - currentPosition + 1);
      var got := Min(want, |file| - filePointer);
      var content := file[filePointer..filePointer + got];
      eof := got < want;
      filePointer := filePointer + got;
      chunks := chunks + [content];
      currentPosition := currentPosition + ChunkSize;
      checks := checks + 1;
    }
    PassesBound(begin, end, checks);
    LoopDelivery(file, begin, end, checks, chunks);
  }

  /**
   * The loop with the evident intent: it runs while currentPosition <= end,
   * so that with the peer connected it prints exactly bytes begin..end.
   */
  method StreamRangeFixed(file: seq<bv8>, begin: nat, end: int, closeAfter: nat) returns (chunks: seq<seq<bv8>>)
    requires end < |file|
    ensures chunks == SentUpTo(file, begin, end, Min(closeAfter, PassesFixed(begin, end)))
    ensures chunks != [] ==> Flatten(chunks) == file[begin..begin + Min(ChunkSize * |chunks|, end - begin + 1)]
    ensures closeAfter >= PassesFixed(begin, end) && begin <= end ==> Flatten(chunks) == file[begin..end + 1]
  {
    var currentPosition := begin;
    var checks := 0;
    chunks := [];
    while currentPosition <= end && checks < closeAfter
      invariant checks <= closeAfter && checks <= PassesFixed(begin, end)
      invariant currentPosition == begin + ChunkSize * checks
      invariant chunks == SentUpTo(file, begin, end, checks)
      decreases end - currentPosition
    {
      PassesBound(begin, end, checks);
      var content := file[currentPosition..currentPosition + Min(ChunkSize, end - currentPosition + 1)];
      chunks := chunks + [content];
      currentPosition := currentPosition + ChunkSize;
      checks := checks + 1;
    }
    PassesBound(begin, end, checks);
    LoopDelivery(file, begin, end, checks, chunks);
  }

  // ---------------------------------------------------------------------
  // sendFile
  // ---------------------------------------------------------------------

  /** What the file system says of the stored file. */
  datatype StoredFile = Missing | Unreadable | Readable(content: seq<bv8>)

  datatype Response =
    | NotFound
    | ServerError
    | Streamed(head: Head, disposition: string, body: seq<seq<bv8>>)

  function Disposition(dlFilename: string): string {
    "attachment; filename=\"" + dlFilename + "\""
  }

  /**
   * sendFile as written: 404 when the stored file is missing, 500 when it
   * cannot be opened, otherwise the headers for the resolved range and the
   * chunks the loop prints.
   */
  method SendFile(stored: StoredFile, dlFilename: string, rangeHeader: Option<string>, closeAfter: nat)
    returns (resp: Response)
    ensures stored.Missing? ==> resp == NotFound
    ensures stored.Unreadable? ==> resp == ServerError
    ensures stored.Readable? ==>
      var size := |stored.content|;
      var r := ResolveRange(size, rangeHeader);
      && resp.Streamed?
      && (resp.head.status == 200 <==> r.begin == 0 && r.end == size - 1)
      && (resp.head.status == 206 <==> !(r.begin == 0 && r.end == size - 1))
      && resp.head.contentLength == r.end - r.begin + 1
      && resp.head.contentRange == ContentRange(r.begin, r.end, size)
      && ParseContentRange(resp.head.contentRange) == Some(RangeFields(r.begin, r.end, size))
      && resp.disposition == Disposition(dlFilename)
      && resp.body == SentUpTo(stored.content, r.begin, r.end, Min(closeAfter, Passes(r.begin, r.end)))
  {
    match stored
    case Missing =>
      resp := NotFound;
    case Unreadable =>
      resp := ServerError;
    case Readable(content) =>
      var size := |content|;
      var r := ResolveRange(size, rangeHeader);
      var head := ResponseHead(size, r);
      ContentRangeRoundTrip(r.begin, r.end, size);
      var body := StreamRange(content, r.begin, r.end, closeAfter);
      resp := Streamed(head, Disposition(dlFilename), body);
  }

  /** sendFile with both corrections: captures of "0" count, and the loop runs while currentPosition <= end. */
  method SendFileFixed(stored: StoredFile, dlFilename: string, rangeHeader: Option<string>, closeAfter: nat)
    returns (resp: Response)
    ensures stored.Missing? ==> resp == NotFound
    ensures stored.Unreadable? ==> resp == ServerError
    ensures stored.Readable? ==>
      var size := |stored.content|;
      var r := ResolveRangeFixed(size, rangeHeader);
      && resp.Streamed?
      && (resp.head.status == 200 <==> r.begin == 0 && r.end == size - 1)
      && (resp.head.status == 206 <==> !(r.begin == 0 && r.end == size - 1))
      && resp.head.contentLength == r.end - r.begin + 1
      && resp.head.contentRange == ContentRange(r.begin, r.end, size)
      && ParseContentRange(resp.head.contentRange) == Some(RangeFields(r.begin, r.end, size))
      && resp.disposition == Disposition(dlFilename)
      && resp.body == SentUpTo(stored.content, r.begin, r.end, Min(closeAfter, PassesFixed(r.begin, r.end)))
  {
    match stored
    case Missing =>
      resp := NotFound;
    case Unreadable =>
      resp := ServerError;
    case Readable(content) =>
      var size := |content|;
      var r := ResolveRangeFixed(size, rangeHeader);
      var head := ResponseHead(size, r);
      ContentRangeRoundTrip(r.begin, r.end, size);
      var body := StreamRangeFixed(content, r.begin, r.end, closeAfter);
      resp := Streamed(head, Disposition(dlFilename), body);
  }

  // ---------------------------------------------------------------------
  // What a client receives
  // ---------------------------------------------------------------------

  /**
   * Without a Range header the whole file is advertised (status 200, see
   * SendFile), but with the peer connected throughout a file of one byte
   * arrives empty, and one whose size is one more than a multiple of 16384
   * arrives without its last byte.
   */
  lemma WholeFileWithoutRange(content: seq<bv8>)
    ensures ResolveRange(|content|, None) == ByteRange(0, |content| - 1)
    ensures Flatten(SentUpTo(content, 0, |content| - 1, Passes(0, |content| - 1)))
         == if |content| >= 2 && (|content| - 1) % ChunkSize != 0 then content
            else if |content| >= 2 then content[..|content| - 1]
            else []
  {
    var n := Passes(0, |content| - 1);
    PassesBound(0, |content| - 1, n);
    LoopDelivery(content, 0, |content| - 1, n, SentUpTo(content, 0, |content| - 1, n));
    assert content[0..|content|] == content;
  }

  /**
   * A request "bytes=a-b" with 1 <= b < size and a <= b is resolved to a..b,
   * so b - a + 1 bytes are advertised, yet with the peer connected
   * throughout the body holds them all only when a < b and b - a is not a
   * multiple of 16384; otherwise byte b is missing, and a single-byte range
   * arrives empty.
   */
  lemma RangeRequestAsWritten(content: seq<bv8>, a: nat, b: nat)
    requires a <= b && 1 <= b < |content|
    ensures ResolveRange(|content|, Some(RangeRequest(a, b))) == ByteRange(a, b)
    ensures Flatten(SentUpTo(content, a, b, Passes(a, b)))
         == if a < b && (b - a) % ChunkSize != 0 then content[a..b + 1] else content[a..b]
  {
    ResolveRangeRequest(|content|, a, b);
    var n := Passes(a, b);
    PassesBound(a, b, n);
    LoopDelivery(content, a, b, n, SentUpTo(content, a, b, n));
  }

  /**
   * With the corrected loop and the peer connected throughout, every
   * non-empty range inside the file (as every resolved range is, see
   * ResolveRangeFixed) arrives whole.
   */
  lemma FixedDeliversRange(content: seq<bv8>, begin: nat, end: int)
    requires begin <= end < |content|
    ensures Flatten(SentUpTo(content, begin, end, PassesFixed(begin, end))) == content[begin..end + 1]
  {
    var n := PassesFixed(begin, end);
    LoopDelivery(content, begin, end, n, SentUpTo(content, begin, end, n));
  }

  /** The smallest witness: a 16385-byte file served whole advertises 16385 bytes and receives 16384. */
  lemma LastByteDropped(content: seq<bv8>)
    requires |content| == ChunkSize + 1
    ensures ResolveRange(|content|, None) == ByteRange(0, ChunkSize)
    ensures Passes(0, ChunkSize) == 1
    ensures |Flatten(SentUpTo(content, 0, ChunkSize, 1))| == ChunkSize
  {
    PassesBound(0, ChunkSize, 1);
    LoopDelivery(content, 0, ChunkSize, 1, SentUpTo(content, 0, ChunkSize, 1));
  }
  /**
   * Bytes received against the advertised Content-Length end - begin + 1,
   * with the peer connected for `n` passes: never more. A complete run
   * delivers exactly that many only when begin < end and end - begin is not a
   * multiple of 16384, or when the range is empty (begin == end + 1, length
   * 0); it delivers nothing at all when begin >= end.
   */
  lemma DeliveredLength(file: seq<bv8>, begin: nat, end: int, n: nat)
    requires end < |file| && n <= Passes(begin, end)
    ensures |Flatten(SentUpTo(file, begin, end, n))| <= if begin <= end + 1 then end - begin + 1 else 0
    ensures begin >= end ==> |Flatten(SentUpTo(file, begin, end, n))| == 0
    ensures n == Passes(begin, end) ==>
      var delivered := |Flatten(SentUpTo(file, begin, end, n))|;
      delivered == end - begin + 1 <==> (begin < end && (end - begin) % ChunkSize != 0) || begin == end + 1
  {
    var chunks := SentUpTo(file, begin, end, n);
    PassesBound(begin, end, n);
    LoopDelivery(file, begin, end, n, chunks);
    if n == 0 {
      assert chunks == [];
    }
  }
}
