/** Reading a chunked HTTP response body (section 4.1 of RFC 7230) from an IO that delivers its bytes in pieces. */
module ChunkedBody {
  import opened ByteBuffer
  import opened Common

  const CR: byte := 13
  const LF: byte := 10
  const CRLF: seq<byte> := [CR, LF]

  const TEMP_BUFFER_SIZE := 1024
  const MAX_RECEIVE_RETRY := 2000
  const INT_MAX := 0x7FFF_FFFF

  // ----- the connection -----

  /** What one `xio_dowork` brings: some bytes, perhaps none, or an error, be it of the IO or for want of memory. */
  datatype Arrival = Piece(bytes: seq<byte>) | IoError

  /** The bytes received and not yet consumed, what is still to come, and whether an error has been noticed. When
      nothing is to come, `xio_dowork` brings nothing. */
  datatype Conn = Conn(buffer: seq<byte>, arrivals: seq<Arrival>, failed: bool)

  /** How an operation ends; `Never` is that of one that keeps waiting for bytes that do not come. */
  datatype Outcome<+T> = Done(value: T) | Failed | Never

  function Coming(arrivals: seq<Arrival>): nat {
    if arrivals == [] then 0 else
      (match arrivals[0] case Piece(bytes) => |bytes| case IoError => 0) + Coming(arrivals[1..])
  }

  /** The number of bytes that can still be consumed. */
  function Left(c: Conn): nat {
    |c.buffer| + Coming(c.arrivals)
  }

  function Work(c: Conn): (c': Conn)
    ensures Left(c') == Left(c)
    ensures if c.arrivals == [] then c' == c else |c'.arrivals| == |c.arrivals| - 1
  {
    if c.arrivals == [] then c else
      match c.arrivals[0]
      case Piece(bytes) => Conn(c.buffer + bytes, c.arrivals[1..], c.failed)
      case IoError => Conn(c.buffer, c.arrivals[1..], true)
  }

  function Drop(c: Conn, n: nat): Conn
    requires n <= |c.buffer|
  {
    c.(buffer := c.buffer[n..])
  }

  /** `conn_receive`: so many bytes, however long they take. */
  function Receive(c: Conn, count: int): (r: (Outcome<seq<byte>>, Conn))
    ensures Left(r.1) <= Left(c) && (r.0.Done? ==> |r.0.value| == count)
    decreases |c.arrivals|
  {
    if count < 0 then (Failed, c)
    else if count == 0 then (Done([]), c)
    else
      var c' := Work(c);
      if c'.failed then (Failed, c')
      else if |c'.buffer| >= count then (Done(c'.buffer[..count]), Drop(c', count))
      else if c'.arrivals == [] then (Never, c')
      else Receive(c', count)
  }

  /** The conversion to `int`. */
  function ToInt(size: nat): (n: int)
    ensures -0x8000_0000 <= n <= 0x7FFF_FFFF && (size - n) % 0x1_0000_0000 == 0
    ensures n <= size && (n == size <==> size <= 0x7FFF_FFFF)
  {
    var low := size % 0x1_0000_0000;
    if low <= INT_MAX then low else low - 0x1_0000_0000
  }

  /** What is left after a successful attempt converts to zero. */
  lemma RestConvertsToZero(size: nat)
    requires ToInt(size) >= 0
    ensures ToInt(size - ToInt(size)) == 0
  {
    assert size - ToInt(size) == 0x1_0000_0000 * (size / 0x1_0000_0000);
  }

  /** `readChunk`. Because of the conversion it reads no more than the low half of the size says, or fails if that is
      negative. */
  function Take(c: Conn, size: nat): (r: (Outcome<seq<byte>>, Conn))
    ensures r.0.Done? ==> |r.0.value| <= size
    ensures ToInt(size) < 0 ==> r.0.Failed? && r.1 == c
    ensures r.0.Done? ==> |r.0.value| == size % 0x1_0000_0000
    ensures r.0.Done? ==> (|r.0.value| == size <==> size <= 0x7FFF_FFFF)
  {
    Receive(c, ToInt(size))
  }

  /** The first position that holds a CR. */
  function IndexOfCr(s: seq<byte>): (k: nat)
    ensures k <= |s| && (forall j | 0 <= j < k :: s[j] != CR) && (k < |s| ==> s[k] == CR)
  {
    if s == [] || s[0] == CR then 0 else 1 + IndexOfCr(s[1..])
  }

  /** One attempt at reading a line: its end, or all the text that has come. */
  datatype Attempt = Ended(result: Outcome<seq<byte>>, conn: Conn) | NotYet(text: seq<byte>, conn: Conn)

  /** Everything up to a CR, and an LF behind it only if it has already come. Text that is too long is thrown away
      together with all that has come. */
  function TryLine(c: Conn, text: seq<byte>): (a: Attempt)
    requires |text| < TEMP_BUFFER_SIZE - 1
    ensures Left(a.conn) <= Left(c)
    ensures a.Ended? && a.result.Done? ==> Left(a.conn) < Left(c)
    ensures if a.NotYet? then |a.text| < TEMP_BUFFER_SIZE - 1
            else a.result.Failed? || (a.result.Done? && |a.result.value| < TEMP_BUFFER_SIZE - 1)
  {
    var c' := Work(c);
    var k := IndexOfCr(c'.buffer);
    if c'.failed then Ended(Failed, c')
    else if |text| + k >= TEMP_BUFFER_SIZE - 1 then Ended(Failed, c'.(buffer := []))
    else if k == |c'.buffer| then NotYet(text + c'.buffer, c'.(buffer := []))
    else Ended(Done(text + c'.buffer[..k]),
               Drop(c', if k + 1 < |c'.buffer| && c'.buffer[k + 1] == LF then k + 2 else k + 1))
  }

  /** `readLine`. */
  function Line(c: Conn, text: seq<byte>, retries: nat): (r: (Outcome<seq<byte>>, Conn))
    requires |text| < TEMP_BUFFER_SIZE - 1
    ensures Left(r.1) <= Left(c) && (r.0.Done? ==> Left(r.1) < Left(c)) && !r.0.Never?
    ensures r.0.Done? ==> |r.0.value| < TEMP_BUFFER_SIZE - 1
    decreases retries
  {
    match TryLine(c, text)
    case Ended(result, c') => (result, c')
    case NotYet(text', c') => if retries == 0 then (Failed, c') else Line(c', text', retries - 1)
  }

  /** `skipN`, but for its result: so many bytes are thrown away, if they come in time. */
  function Skip(c: Conn, n: nat, retries: nat): (r: (Outcome<nat>, Conn))
    ensures Left(r.1) <= Left(c)
    decreases retries
  {
    if n == 0 then (Done(0), c) else
      var c' := Work(c);
      if c'.failed then (Failed, c')
      else if |c'.buffer| >= n then (Done(0), Drop(c', n))
      else if retries == 0 then (Failed, c'.(buffer := []))
      else Skip(c'.(buffer := []), n - |c'.buffer|, retries - 1)
  }

  // ----- the size of a chunk -----

  function HexDigit(c: byte): (d: int)
    ensures -1 <= d < 16
  {
    if 0x30 <= c <= 0x39 then c as int - 0x30
    else if 0x61 <= c <= 0x66 then c as int - 0x61 + 10
    else if 0x41 <= c <= 0x46 then c as int - 0x41 + 10
    else -1
  }

  ghost function HexNumber(digits: seq<byte>): nat {
    if digits == [] then 0 else
      var d := HexDigit(digits[|digits|-1]);
      HexNumber(digits[..|digits|-1]) * 16 + if d >= 0 then d else 0
  }

  ghost function HexRun(line: seq<byte>): (n: nat)
    ensures n <= |line| && (n < |line| ==> HexDigit(line[n]) == -1)
    ensures forall k | 0 <= k < n :: HexDigit(line[k]) >= 0
  {
    if line == [] || HexDigit(line[0]) < 0 then 0 else 1 + HexRun(line[1..])
  }

  /** The number at the beginning of a line; whatever follows the digits, an extension say, is ignored. */
  ghost function SizeIn(line: seq<byte>): (size: Option<nat>)
    ensures size.Some? ==> size.value <= SIZE_MAX
  {
    if HexRun(line) == 0 then None else Some(HexNumber(line[..HexRun(line)]) % (SIZE_MAX + 1))
  }

  // The digits, in the order of their values.
  const LOWER: seq<byte> :=
    [0x30, 0x31, 0x32, 0x33, 0x34, 0x35, 0x36, 0x37, 0x38, 0x39, 0x61, 0x62, 0x63, 0x64, 0x65, 0x66]
  const UPPER: seq<byte> :=
    [0x30, 0x31, 0x32, 0x33, 0x34, 0x35, 0x36, 0x37, 0x38, 0x39, 0x41, 0x42, 0x43, 0x44, 0x45, 0x46]

  /** The digits have their values, and no other byte has one. */
  lemma HexAlphabet(d: nat, c: byte)
    ensures d < 16 ==> HexDigit(LOWER[d]) == d && HexDigit(UPPER[d]) == d
    ensures HexDigit(c) == -1 <==> c !in LOWER && c !in UPPER
    ensures HexDigit(0x39) == 9 && HexDigit(0x61) == 10 && HexDigit(0x66) == 15 && HexDigit(0x41) == 10
  {
    if 0x30 <= c <= 0x39 {
      assert LOWER[c as int - 0x30] == c;
    } else if 0x61 <= c <= 0x66 {
      assert LOWER[c as int - 0x61 + 10] == c;
    } else if 0x41 <= c <= 0x46 {
      assert UPPER[c as int - 0x41 + 10] == c;
    }
  }

  /** A number written in hexadecimal, with the letters in either case. */
  function HexText(n: nat, upper: bool): (text: seq<byte>)
    ensures text != []
  {
    var digit := if upper then UPPER[n % 16] else LOWER[n % 16];
    if n < 16 then [digit] else HexText(n / 16, upper) + [digit]
  }

  lemma {:induction false} HexTextDenotes(n: nat, upper: bool)
    ensures HexNumber(HexText(n, upper)) == n
    ensures forall k | 0 <= k < |HexText(n, upper)| :: HexDigit(HexText(n, upper)[k]) >= 0
  {
    HexAlphabet(n % 16, 0);
    var text := HexText(n, upper);
    var digit := text[|text|-1];
    hide HexDigit;
    if n < 16 {
      assert text == [] + [digit];
      NoHexDigits();
      HexNumberSnoc([], digit);
    } else {
      HexTextDenotes(n / 16, upper);
      HexNumberSnoc(HexText(n / 16, upper), digit);
    }
  }

  lemma NoHexDigits()
    ensures HexNumber([]) == 0
  {}

  lemma HexNumberSnoc(digits: seq<byte>, c: byte)
    requires HexDigit(c) >= 0
    ensures HexNumber(digits + [c]) == HexNumber(digits) * 16 + HexDigit(c)
  {
    assert (digits + [c])[..|digits|] == digits;
  }

  /** A size line is understood: whatever follows the hexadecimal number, be it an extension or nothing, is ignored, and
      numbers that do not fit wrap around. A line that does not begin with a digit gives no size. */
  lemma SizeLineMeans(n: nat, upper: bool, rest: seq<byte>)
    requires rest == [] || (rest[0] !in LOWER && rest[0] !in UPPER)
    ensures SizeIn(HexText(n, upper) + rest) == Some(n % 0x1_0000_0000_0000_0000)
    ensures n <= 0xFFFF_FFFF_FFFF_FFFF ==> SizeIn(HexText(n, upper) + rest) == Some(n)
    ensures SizeIn(rest) == None
  {
    hide HexText, HexNumber, HexDigit, HexRun;
    HexTextDenotes(n, upper);
    if rest != [] { HexAlphabet(0, rest[0]); }
    var text := HexText(n, upper);
    RunOfDigits(text, rest);
    RunOfDigits([], rest);
    assert (text + rest)[..|text|] == text && [] + rest == rest;
  }

  lemma RunOfDigits(text: seq<byte>, rest: seq<byte>)
    requires forall k | 0 <= k < |text| :: HexDigit(text[k]) >= 0
    requires rest != [] ==> HexDigit(rest[0]) == -1
    ensures HexRun(text + rest) == |text|
  {
    hide HexDigit, HexRun;
    var line := text + rest;
    assert forall k | 0 <= k < |text| :: line[k] == text[k];
    assert rest != [] ==> line[|text|] == rest[0];
  }

  /** Reducing a number before it gets one more digit does not change the remainder. */
  lemma RemainderFirst(n: nat, d: nat, m: nat)
    requires m > 0
    ensures (n * 16 + d) % m == (n % m * 16 + d) % m
  {
    var q, r := n / m, n % m * 16 + d;
    assert n == m * q + n % m;
    assert r == m * (r / m) + r % m;
    assert n * 16 + d == (16 * q + r / m) * m + r % m;
    RemainderUnique(n * 16 + d, m, 16 * q + r / m, r % m);
  }

  lemma OneMoreHexDigit(digits: seq<byte>, c: byte)
    requires HexDigit(c) >= 0
    ensures HexNumber(digits + [c]) % (SIZE_MAX + 1) ==
            (HexNumber(digits) % (SIZE_MAX + 1) * 16 + HexDigit(c)) % (SIZE_MAX + 1)
  {
    assert (digits + [c])[..|digits|] == digits;
    RemainderFirst(HexNumber(digits), HexDigit(c), SIZE_MAX + 1);
  }

  /** `ParseStringToHexadecimal` on the C string in `buf`, which ends at `end`. */
  method ParseStringToHexadecimal(buf: array<byte>, end: nat) returns (size: Option<nat>)
    requires end < buf.Length && buf[end] == 0
    ensures size == SizeIn(buf[..end])
  {
    if HexDigit(buf[0]) == -1 {
      return None;
    }
    var dst, src := 0, 0;
    ghost var line := buf[..end];
    assert HexNumber(line[..0]) == 0;
    hide HexNumber, HexDigit, HexRun;
    while HexDigit(buf[src]) != -1
      invariant src <= end
      invariant forall k | 0 <= k < src :: HexDigit(line[k]) >= 0
      invariant dst == HexNumber(line[..src]) % (SIZE_MAX + 1)
      decreases end - src
    {
      OneMoreHexDigit(line[..src], line[src]);
      assert line[..src + 1] == line[..src] + [line[src]];
      dst := (dst * 16 + HexDigit(buf[src])) % (SIZE_MAX + 1);
      src := src + 1;
    }
    assert HexRun(line) == src;
    size := Some(dst);
  }

  // ----- the body -----

  /** The results of the HTTP API that reading a body can have, and that of waiting for ever. */
  datatype Code = Ok | ReadDataFailed | ReceiveResponseFailed | AllocFailed | NeverReturns

  /** One round of the loop: a chunk of some size, of which `piece` has been read, or the end. `unbuilt` tells that the
      content has been given up. */
  datatype Round =
    | Chunk(piece: seq<byte>, size: nat, conn: Conn)
    | End(code: Code, handed: seq<seq<byte>>, conn: Conn, unbuilt: bool)

  /** The CRLF behind a chunk or behind the last line. */
  function Closing(c: Conn): (r: (Code, Conn))
    ensures Left(r.1) <= Left(c)
  {
    var (end, c') := Take(c, 2);
    (match end
     case Done(two) => if two == CRLF then Ok else ReadDataFailed
     case Failed => ReadDataFailed
     case Never => NeverReturns, c')
  }

  /** The data of a chunk: kept, if there is a content to keep it in, and otherwise skipped. */
  function Data(c: Conn, size: nat, keep: bool): (r: (Outcome<seq<byte>>, Conn))
    ensures Left(r.1) <= Left(c)
  {
    if keep then Take(c, size) else
      var (skipped, c') := Skip(c, size, MAX_RECEIVE_RETRY);
      (if skipped.Done? && ToInt(size) >= 0 then Done([]) else Failed, c')
  }

  /** One round of the loop of `ReadHTTPResponseBodyFromXIO`: `held` is the size of the content so far, and `granted`
      says whether memory can be had to enlarge it. */
  ghost function OneRound(c: Conn, keep: bool, held: nat, granted: bool): (r: Round)
    ensures r.Chunk? ==> Left(r.conn) < Left(c)
  {
    var (line, c1) := Line(c, [], MAX_RECEIVE_RETRY);
    if !line.Done? then End(ReadDataFailed, [], c1, false)
    else if SizeIn(line.value) == None then End(ReceiveResponseFailed, [], c1, false)
    else
      var size := SizeIn(line.value).value;
      if size == 0 then
        var (code, c2) := Closing(c1);
        End(code, [], c2, code == ReadDataFailed)
      else if keep && !(held + size < SIZE_MAX && granted) then End(AllocFailed, [], c1, true)
      else
        var (data, c2) := Data(c1, size, keep);
        match data
        case Failed => End(ReadDataFailed, [], c2, false)
        case Never => End(NeverReturns, [], c2, false)
        case Done(piece) =>
          var (code, c3) := Closing(c2);
          if code == Ok then Chunk(piece, size, c3) else End(code, [piece], c3, false)
  }

  /** A whole body: how it ends, the pieces read, the connection behind it, and whether each piece has the size that its
      line promises. */
  datatype Run = Run(code: Code, pieces: seq<seq<byte>>, conn: Conn, exact: bool, unbuilt: bool)

  ghost function Body(c: Conn, keep: bool, held: nat, refused: set<nat>, round: nat): Run
    decreases Left(c)
  {
    match OneRound(c, keep, held, round !in refused)
    case End(code, handed, c', unbuilt) => Run(code, handed, c', true, unbuilt)
    case Chunk(piece, size, c') =>
      var rest := Body(c', keep, held + size, refused, round + 1);
      rest.(pieces := [piece] + rest.pieces, exact := rest.exact && |piece| == size)
  }

  // ----- the methods -----

  function Overwritten(s: seq<byte>, at: nat, bytes: seq<byte>): seq<byte>
    requires at + |bytes| <= |s|
  {
    s[..at] + bytes + s[at + |bytes|..]
  }

  /** How a scan for the end of a line ends. */
  datatype Scanned = Found | NotFound | TooLong

  class HttpConnection {
    var received: seq<byte>
    var arrivals: seq<Arrival>
    var isIoError: bool

    function Now(): Conn
      reads this
    {
      Conn(received, arrivals, isIoError)
    }

    /** `on_bytes_received`: without memory for the bytes, that is an error. */
    method OnBytesReceived(bytes: seq<byte>)
      modifies `received
      ensures received == old(received) + bytes
    {
      received := received + bytes;
    }

    /** `xio_dowork` with its callbacks. */
    method DoWork()
      modifies this
      ensures Now() == Work(old(Now()))
    {
      if arrivals != [] {
        var arrival := arrivals[0];
        arrivals := arrivals[1..];
        match arrival {
          case Piece(bytes) => OnBytesReceived(bytes);
          case IoError => isIoError := true;
        }
      }
    }

    /** `conn_receive` into `target` from `at` on. */
    method ConnReceive(target: array<byte>, at: nat, count: int) returns (result: Outcome<int>)
      requires at + count <= target.Length && at <= target.Length
      modifies this, target
      ensures var (got, c) := Receive(old(Now()), count);
              && Now() == c
              && result == (match got case Done(bytes) => Done(count) case Failed => Failed case Never => Never)
              && target[..] == if got.Done? then Overwritten(old(target[..]), at, got.value) else old(target[..])
    {
      if count < 0 {
        return Failed;
      }
      if count == 0 {
        return Done(0);
      }
      while true
        invariant target[..] == old(target[..]) && Receive(Now(), count) == Receive(old(Now()), count)
        decreases |arrivals|
      {
        DoWork();
        if isIoError {
          return Failed;
        }
        if |received| >= count {
          Put(target, at, received[..count]);
          received := received[count..];
          return Done(count);
        }
        if arrivals == [] {
          return Never;
        }
      }
    }

    /** `readChunk` into `target` from `at` on: its loop never receives a second time. */
    method ReadChunk(target: array<byte>, at: nat, size: nat) returns (result: Outcome<int>)
      requires at + size <= target.Length
      modifies this, target
      ensures var (got, c) := Take(old(Now()), size);
              && Now() == c
              && result == (match got case Done(bytes) => Done(|bytes|) case Failed => Failed case Never => Never)
              && target[..] == if got.Done? then Overwritten(old(target[..]), at, got.value) else old(target[..])
    {
      hide ToInt, Overwritten, Receive, Take, ChunkRead;
      ghost var start, before := Now(), target[..];
      var rest: nat, offset: nat := size, 0;
      NothingRead(start, size, before, at);
      while rest > 0
        invariant offset + rest == size
        invariant ChunkRead(start, size, before, at, rest, Now(), target[..])
      {
        ghost var c, bytes := Now(), target[..];
        var cur := ConnReceive(target, at + offset, ToInt(rest));
        OnePieceRead(start, size, before, at, rest, c, bytes);
        if cur == Done(0) {
          return Done(offset);
        }
        if !cur.Done? {
          return cur;
        }
        rest := rest - cur.value;
        offset := offset + cur.value;
      }
      AllRead(start, size, before, at, Now(), target[..]);
      result := Done(offset);
    }

    /** The inner loop of `readLine`: copies what has been received behind the `dest` bytes of text already in `buf`, up
        to a CR. */
    method Scan(buf: array<byte>, dest: nat) returns (result: Scanned, dest': nat, next: nat)
      requires dest < buf.Length - 1
      modifies buf
      ensures next <= |received|
      ensures var k := IndexOfCr(received);
              if dest + k >= buf.Length - 1 then result == TooLong && next == |received|
              else
                && dest' == dest + k && buf[..dest'] == old(buf[..dest]) + received[..k]
                && (if k == |received| then result == NotFound && next == k
                    else result == Found && buf[dest'] == 0
                         && next == if k + 1 < |received| && received[k + 1] == LF then k + 2 else k + 1)
    {
      next, dest' := 0, dest;
      while next < |received|
        invariant next <= |received| && dest' == dest + next < buf.Length - 1
        invariant forall j | 0 <= j < next :: received[j] != CR
        invariant buf[..dest'] == old(buf[..dest]) + received[..next]
      {
        if received[next] == CR {
          FirstCr(received, next);
          next := next + 1;
          if next < |received| && received[next] == LF {
            next := next + 1;
          }
          ghost var text := buf[..dest'];
          buf[dest'] := 0;
          assert buf[..dest'] == text;
          return Found, dest', next;
        }
        ghost var text := buf[..dest'];
        buf[dest'] := received[next];
        assert buf[..dest' + 1] == text + [received[next]];
        dest' := dest' + 1;
        next := next + 1;
        if dest' >= buf.Length - 1 {
          FirstCr(received, next);
          return TooLong, dest', |received|;
        }
      }
      FirstCr(received, next);
      result := NotFound;
    }

    /** One round of the loop of `readLine`; without a result, all that has come joins the text. */
    method TryReadLine(buf: array<byte>, dest: nat) returns (result: Option<Outcome<nat>>, dest': nat)
      requires buf.Length == TEMP_BUFFER_SIZE && dest < TEMP_BUFFER_SIZE - 1
      modifies this, buf
      ensures var a := TryLine(old(Now()), old(buf[..dest]));
              Now() == a.conn &&
              match a
              case NotYet(text, c) => result == None && dest' == |text| && buf[..dest'] == text
              case Ended(Done(text), c) =>
                result == Some(Done(|text|)) && buf[..|text|] == text && buf[|text|] == 0
              case Ended(_, c) => result == Some(Failed)
    {
      DoWork();
      dest' := dest;
      if isIoError {
        return Some(Failed), dest';
      }
      var scanned, next;
      scanned, dest', next := Scan(buf, dest);
      assert received[..|received|] == received && received[|received|..] == [];
      received := received[next..];
      result := match scanned case TooLong => Some(Failed) case Found => Some(Done(dest')) case NotFound => None;
    }

    /** `readLine`: the text is then a C string in `buf`. */
    method ReadLine(buf: array<byte>) returns (result: Outcome<nat>)
      requires buf.Length == TEMP_BUFFER_SIZE
      modifies this, buf
      ensures var (line, c) := Line(old(Now()), [], MAX_RECEIVE_RETRY);
              && Now() == c
              && if !line.Done? then result == Failed
                 else result == Done(|line.value|) && |line.value| < TEMP_BUFFER_SIZE - 1
                      && buf[..|line.value|] == line.value && buf[|line.value|] == 0
    {
      hide TryLine;
      var dest: nat, countRetry: nat := 0, MAX_RECEIVE_RETRY;
      assert buf[..0] == [];
      while true
        invariant dest < TEMP_BUFFER_SIZE - 1
        invariant Line(Now(), buf[..dest], countRetry) == Line(old(Now()), [], MAX_RECEIVE_RETRY)
        decreases countRetry
      {
        var ended;
        ended, dest := TryReadLine(buf, dest);
        if ended.Some? {
          return ended.value;
        }
        if countRetry == 0 {
          return Failed;
        }
        countRetry := countRetry - 1;
      }
    }

    /** `skipN`. */
    method SkipN(count: nat) returns (result: Outcome<int>)
      modifies this
      ensures var (skipped, c) := Skip(old(Now()), count, MAX_RECEIVE_RETRY);
              Now() == c && result == if skipped.Done? then Done(ToInt(count)) else Failed
    {
      hide ToInt, Skip, Work;
      var n: nat, countRetry: nat := count, MAX_RECEIVE_RETRY;
      while n > 0
        invariant Skip(Now(), n, countRetry) == Skip(old(Now()), count, MAX_RECEIVE_RETRY)
        decreases countRetry, n
      {
        SkipRounds(Now(), n, countRetry);
        DoWork();
        if isIoError {
          return Failed;
        }
        if |received| <= n {
          assert received[|received|..] == [];
          n := n - |received|;
          received := [];
        } else {
          received := received[n..];
          n := 0;
        }
        if n > 0 {
          if countRetry == 0 {
            return Failed;
          }
          countRetry := countRetry - 1;
        }
      }
      NothingToSkip(Now(), countRetry);
      result := Done(ToInt(count));
    }

    /** The CRLF behind a chunk or behind the last line. */
    method ReadClosing(buf: array<byte>) returns (code: Code)
      requires buf.Length == TEMP_BUFFER_SIZE
      modifies this, buf
      ensures (code, Now()) == Closing(old(Now()))
    {
      hide Receive;
      ghost var two := Take(Now(), 2).0;
      var read := ReadChunk(buf, 0, 2);
      if read.Never? {
        return NeverReturns;
      }
      assert two.Done? ==> two.value == buf[..2];
      code := if read.Failed? || buf[0] != CR || buf[1] != LF then ReadDataFailed else Ok;
    }

    /** The data of one chunk, behind what the content has from `offset` on, or nowhere. */
    method ReadData(content: Buffer?, offset: nat, size: nat, granted: bool)
      returns (code: Code, piece: seq<byte>)
      requires 0 < size <= SIZE_MAX && (content != null ==> content.Valid() && offset <= content.size)
      modifies this, content
      ensures content != null ==>
                && content.Valid()
                && (content.data == old(content.data) || content.data == null || fresh(content.data))
      ensures content != null && !(old(content.size) + size < SIZE_MAX && granted) ==>
                code == AllocFailed && Now() == old(Now()) && content.Contents() == []
      ensures (content != null ==> old(content.size) + size < SIZE_MAX && granted) ==>
                var (data, c) := Data(old(Now()), size, content != null);
                && Now() == c
                && code == (match data case Done(_) => Ok case Failed => ReadDataFailed case Never => NeverReturns)
                && (content != null && data.Done? ==>
                      && content.size == old(content.size) + size && |piece| == size
                      && content.Contents()[..offset] == old(content.Contents()[..offset])
                      && content.Contents()[offset..offset + size] == piece
                      && data.value <= piece)
    {
      hide Receive, Skip, ToInt, Take;
      piece := [];
      if content == null {
        var skipped := SkipN(size);
        return if skipped.Done? && skipped.value >= 0 then Ok else ReadDataFailed, piece;
      }
      ghost var prefix := content.Contents()[..offset];
      var enlarged := content.Enlarge(size, granted);
      if !enlarged {
        var _ := content.Unbuild();
        return AllocFailed, piece;
      }
      assert content.Contents()[..offset] == prefix;
      code, piece := FillChunk(content, offset, size);
    }

    /** The data are read into the memory of the content, which has room for them. */
    method FillChunk(content: Buffer, offset: nat, size: nat) returns (code: Code, piece: seq<byte>)
      requires 0 < size && content.Valid() && content.data != null && offset + size <= content.size
      modifies this, content.data
      ensures var (data, c) := Take(old(Now()), size);
              && Now() == c
              && code == (match data case Done(_) => Ok case Failed => ReadDataFailed case Never => NeverReturns)
              && (data.Done? ==>
                    && |piece| == size
                    && content.Contents()[..offset] == old(content.Contents()[..offset])
                    && content.Contents()[offset..offset + size] == piece
                    && data.value <= piece)
    {
      hide Receive, ToInt, Take, Overwritten;
      ghost var before, data := content.data[..], Take(Now(), size).0;
      if data.Done? { OverwrittenParts(before, offset, data.value, size); }
      var read := ReadChunk(content.data, offset, size);
      code := match read case Done(_) => Ok case Failed => ReadDataFailed case Never => NeverReturns;
      piece := content.data[offset..offset + size];
      SlicesOf(before, content.size, offset, size);
      SlicesOf(content.data[..], content.size, offset, size);
    }

    /** One round of the loop of `ReadHTTPResponseBodyFromXIO`; without a code, the loop goes on. `handed` is what the
        user's callback gets to see. */
    method ReadRound(content: Buffer?, buf: array<byte>, offset: nat, granted: bool, ghost held: nat)
      returns (code: Option<Code>, size: nat, handed: seq<seq<byte>>, ghost r: Round)
      requires buf.Length == TEMP_BUFFER_SIZE
      requires content != null ==> content.Valid() && offset <= content.size == held && content.data != buf
      modifies this, buf, content
      ensures content != null ==>
                && content.Valid()
                && (content.data == old(content.data) || content.data == null || fresh(content.data))
      ensures r == OneRound(old(Now()), content != null, held, granted) && Now() == r.conn
      ensures code == if r.Chunk? then None else Some(r.code)
      ensures r.Chunk? ==> size == r.size
      ensures r.Chunk? && content != null ==> content.size == held + size
      ensures r.Chunk? && content != null ==>
                Extended(old(content.Contents()), content.Contents(), offset, size, r.piece, handed)
      ensures r.End? && content != null && r.unbuilt ==> content.Contents() == []
      ensures r.End? && content != null && r.code == Ok ==>
                content.Contents() == old(content.Contents()) && handed == []
    {
      hide Line, Data, Closing, Receive, SizeIn;
      r := OneRound(Now(), content != null, held, granted);
      size, handed := 0, [];
      var line := ReadLine(buf);
      if !line.Done? {
        return Some(ReadDataFailed), size, handed, r;
      }
      var chunkSize := ParseStringToHexadecimal(buf, line.value);
      if chunkSize == None {
        return Some(ReceiveResponseFailed), size, handed, r;
      }
      size := chunkSize.value;
      if size == 0 {
        var closing := ReadClosing(buf);
        if closing == ReadDataFailed && content != null {
          var _ := content.Unbuild();
        }
        return Some(closing), size, handed, r;
      }
      var read, piece := ReadData(content, offset, size, granted);
      if read != Ok {
        return Some(read), size, handed, r;
      }
      handed := if content != null then [piece] else [];
      var closing := ReadClosing(buf);
      code := if closing == Ok then None else Some(closing);
    }

    /** A round of a body that is kept, as seen from the whole run. */
    method KeepRound(content: Buffer, buf: array<byte>, offset: nat, granted: bool,
                     ghost p: Position, ghost handed: seq<seq<byte>>)
      returns (code: Option<Code>, size: nat, got: seq<seq<byte>>, ghost p': Position)
      requires buf.Length == TEMP_BUFFER_SIZE && content.Valid() && content.data != buf
      requires content.size == p.total == p.held + offset && granted == (p.round !in p.refused)
      requires Progress(p, Now(), true, content.Contents(), handed)
      modifies this, buf, content
      ensures content.Valid() && (content.data == old(content.data) || content.data == null || fresh(content.data))
      ensures code.Some? ==> Delivered(p.run, code.value, Now(), true, p.held, content.Contents(), handed + got)
      ensures code == None ==> Left(Now()) < old(Left(Now())) && content.size == old(content.size) + size
      ensures code == None ==> Progress(p', Now(), true, content.Contents(), handed + got)
      ensures code == None ==>
                p' == p.(total := p.total + size, round := p.round + 1, pieces := p'.pieces, exact := p'.exact)
    {
      hide OneRound, Extended, Progress, Delivered, Left;
      ghost var c, before := Now(), content.Contents();
      ghost var r;
      code, size, got, r := ReadRound(content, buf, offset, granted, p.total);
      p' := p.(total := p.total + size, round := p.round + 1, pieces := p.pieces + [if r.Chunk? then r.piece else []],
               exact := p.exact && r.Chunk? && |r.piece| == size);
      if code.Some? {
        AtTheEnd(p, c, true, before, handed, r, content.Contents(), got);
      } else {
        OnePieceMore(p, c, true, before, handed, r, content.Contents(), got);
      }
    }

    /** `ReadHTTPResponseBodyFromXIO` for a chunked body that is kept; `refused` are the chunks for which memory cannot
        be had. Data are written from the beginning of the content, so it has to be empty. A chunked message is read
        into it whole, and consumed to its last byte, exactly if its size lines come together. */
    method ReadBody(content: Buffer, refused: set<nat>) returns (code: Code, handed: seq<seq<byte>>)
      requires content.Valid()
      modifies this, content
      ensures content.Valid()
      ensures var run := Body(old(Now()).(failed := false), true, old(content.size), refused, 0);
              Delivered(run, code, Now(), true, old(content.size), content.Contents(), handed)
      ensures code == AllocFailed ==> content.Contents() == []
      ensures old(content.size) == 0 && refused == {} ==>
                forall parts, last, tail | IsMessage(old(Now()).(failed := false), parts, last, tail) ::
                  MessageRead(old(Now()).(failed := false), parts, last, tail, code, Now(), content.Contents(), handed)
    {
      isIoError := false;
      var buf := new byte[TEMP_BUFFER_SIZE];
      ghost var run := Body(Now(), true, content.size, refused, 0);
      ghost var p := Position(run, [], true, content.size, content.size, refused, 0);
      NothingYet(p, Now(), true, content.Contents());
      hide Body, Progress, Delivered, Left;
      var offset: nat, round: nat := 0, 0;
      handed := [];
      while true
        invariant content.Valid() && content.data != buf && content.size == p.total == p.held + offset
        invariant p.run == run && p.held == old(content.size) && p.refused == refused && p.round == round
        invariant Progress(p, Now(), true, content.Contents(), handed)
        decreases Left(Now())
      {
        var ended, size, got;
        ended, size, got, p := KeepRound(content, buf, offset, round !in refused, p, handed);
        handed := handed + got;
        if ended.Some? {
          NoErrorOverlooked(old(Now()).(failed := false), true, old(content.size), refused, 0);
          MessagesRead(old(Now()).(failed := false), run, ended.value, Now(), content.Contents(), handed);
          return ended.value, handed;
        }
        offset := offset + size;
        round := round + 1;
      }
    }

    /** A round of a body that is not kept, as seen from the whole run. */
    method SkipRound(buf: array<byte>, ghost run: Run, ghost total: nat, ghost round: nat)
      returns (code: Option<Code>, size: nat)
      requires buf.Length == TEMP_BUFFER_SIZE && Alike(Body(Now(), false, total, {}, round), run)
      modifies this, buf
      ensures code == None ==> Left(Now()) < old(Left(Now()))
      ensures code == None ==> Alike(Body(Now(), false, total + size, {}, round + 1), run)
      ensures code.Some? ==> code.value == run.code && Now() == run.conn
    {
      BodyStep([], true, Now(), false, total, {}, round);
      hide OneRound, Body, Left;
      ghost var r;
      var got;
      code, size, got, r := ReadRound(null, buf, 0, true, total);
    }

    /** The same for a body that is not kept. A chunked message is consumed to its last byte exactly if its size lines
        come together, and the data of every chunk within the retries. */
    method SkipBody() returns (code: Code)
      modifies this
      ensures var run := Body(old(Now()).(failed := false), false, 0, {}, 0);
              code == run.code && Now() == run.conn
      ensures forall parts, last, tail | IsLongMessage(old(Now()).(failed := false), parts, last, tail) ::
                MessageSkipped(old(Now()).(failed := false), parts, last, tail, code, Now())
    {
      isIoError := false;
      var buf := new byte[TEMP_BUFFER_SIZE];
      ghost var total: nat, round: nat := 0, 0;
      ghost var run := Body(Now(), false, 0, {}, 0);
      MessagesSkipped(Now(), run);
      hide Body, Left, IsLongMessage, MessageSkipped;
      while true
        invariant Alike(Body(Now(), false, total, {}, round), run)
        decreases Left(Now())
      {
        var ended, size := SkipRound(buf, run, total, round);
        if ended.Some? {
          return ended.value;
        }
        total := total + size;
        round := round + 1;
      }
    }
  }

  /** `rest` bytes of `size` are still to be read into `before`: nothing has been received, or all that `Take` says. */
  ghost predicate ChunkRead(start: Conn, size: nat, before: seq<byte>, at: nat, rest: nat, c: Conn, bytes: seq<byte>) {
    && at + size <= |before| && rest <= size
    && (rest == size ==> c == start && bytes == before)
    && (rest < size ==>
          && ToInt(rest) == 0 && Take(start, size).0.Done? && Take(start, size).1 == c
          && size - rest == |Take(start, size).0.value| && bytes == Overwritten(before, at, Take(start, size).0.value))
  }

  lemma NothingRead(c: Conn, size: nat, bytes: seq<byte>, at: nat)
    requires at + size <= |bytes|
    ensures ChunkRead(c, size, bytes, at, size, c, bytes)
  {}

  lemma OnePieceRead(start: Conn, size: nat, before: seq<byte>, at: nat, rest: nat, c: Conn, bytes: seq<byte>)
    requires ChunkRead(start, size, before, at, rest, c, bytes) && rest > 0
    ensures var (got, c') := Receive(c, ToInt(rest));
            if !got.Done? then bytes == before && Take(start, size) == (got, c')
            else
              var bytes' := if |bytes| == |before| then Overwritten(bytes, at + size - rest, got.value) else bytes;
              if ToInt(rest) == 0 then
                && Take(start, size).0.Done? && |Take(start, size).0.value| == size - rest && c' == Take(start, size).1
                && bytes' == Overwritten(before, at, Take(start, size).0.value)
              else ToInt(rest) <= rest && ChunkRead(start, size, before, at, rest - ToInt(rest), c', bytes')
  {
    NothingReceived(c, bytes, at + size - rest);
    NothingReceived(start, before, at);
    if ToInt(rest) >= 0 { RestConvertsToZero(rest); }
    hide ToInt, Receive;
  }

  lemma AllRead(start: Conn, size: nat, before: seq<byte>, at: nat, c: Conn, bytes: seq<byte>)
    requires ChunkRead(start, size, before, at, 0, c, bytes)
    ensures Take(start, size).0.Done? && |Take(start, size).0.value| == size && c == Take(start, size).1
    ensures bytes == Overwritten(before, at, Take(start, size).0.value)
  {
    NothingReceived(start, before, at);
    assert ToInt(0) == 0;
  }

  lemma OverwrittenParts(s: seq<byte>, at: nat, bytes: seq<byte>, size: nat)
    requires |bytes| <= size && at + size <= |s|
    ensures var t := Overwritten(s, at, bytes);
            |t| == |s| && t[..at] == s[..at] && bytes <= t[at..at + size]
  {}

  lemma SlicesOf(s: seq<byte>, n: nat, at: nat, size: nat)
    requires at + size <= n <= |s|
    ensures s[..n][..at] == s[..at] && s[..n][at..at + size] == s[at..at + size]
  {}

  lemma NothingReceived(c: Conn, s: seq<byte>, at: nat)
    requires at <= |s|
    ensures Receive(c, 0) == (Done([]), c) && Overwritten(s, at, []) == s
  {}

  lemma NothingToSkip(c: Conn, retries: nat)
    ensures Skip(c, 0, retries) == (Done(0), c)
  {}

  /** One round of skipping. */
  lemma SkipRounds(c: Conn, n: nat, retries: nat)
    requires n > 0
    ensures var c' := Work(c);
            Skip(c, n, retries) ==
            if c'.failed then (Failed, c')
            else if |c'.buffer| >= n then Skip(Drop(c', n), 0, retries)
            else if retries == 0 then (Failed, c'.(buffer := []))
            else Skip(c'.(buffer := []), n - |c'.buffer|, retries - 1)
  {}

  /** Where the first CR is. */
  lemma FirstCr(s: seq<byte>, k: nat)
    requires k <= |s| && (forall j | 0 <= j < k :: s[j] != CR)
    ensures IndexOfCr(s) >= k && (k == |s| || s[k] == CR ==> IndexOfCr(s) == k)
  {}

  /** A chunk of `size` bytes, beginning with `piece`, has been added to what the content has up to `offset`. */
  ghost predicate Extended(before: seq<byte>, now: seq<byte>, offset: nat, size: nat, piece: seq<byte>,
                           handed: seq<seq<byte>>)
  {
    && |now| == |before| + size && offset <= |before|
    && now[..offset] == before[..offset]
    && handed == [now[offset..offset + size]] && piece <= now[offset..offset + size]
  }

  lemma ExtendedFlatten(before: seq<byte>, now: seq<byte>, offset: nat, size: nat, piece: seq<byte>,
                        handed: seq<seq<byte>>, pieces: seq<seq<byte>>)
    requires Extended(before, now, offset, size, piece, handed)
    ensures |now| == |before| + size
    ensures offset == |before| && |piece| == size && before == Flatten(pieces) ==>
              now == Flatten(pieces + [piece]) && handed == [piece]
  {
    FlattenSnoc(pieces, piece);
    if offset == |before| && |piece| == size {
      assert now == now[..offset] + now[offset..offset + size];
    }
  }

  /** A run after rounds that have read some pieces. */
  ghost function Prepended(pieces: seq<seq<byte>>, exact: bool, run: Run): Run {
    run.(pieces := pieces + run.pieces, exact := exact && run.exact)
  }

  lemma PrependedNothing(run: Run)
    ensures Prepended([], true, run) == run
  {
    assert [] + run.pieces == run.pieces;
  }

  lemma BodyStep(pieces: seq<seq<byte>>, exact: bool, c: Conn, keep: bool, held: nat, refused: set<nat>, round: nat)
    ensures Prepended(pieces, exact, Body(c, keep, held, refused, round)) ==
            match OneRound(c, keep, held, round !in refused)
            case End(code, handed, c', unbuilt) => Run(code, pieces + handed, c', exact, unbuilt)
            case Chunk(piece, size, c') =>
              Prepended(pieces + [piece], exact && |piece| == size, Body(c', keep, held + size, refused, round + 1))
  {
    hide OneRound;
    match OneRound(c, keep, held, round !in refused)
    case End(code, handed, c', unbuilt) =>
    case Chunk(piece, size, c') =>
      Associative(pieces, [piece], Body(c', keep, held + size, refused, round + 1).pieces);
  }

  /** The outcome of a run, for the caller: if the content was empty and every piece had its size, a successful run has
      left it with the pieces, and has shown them to the callback one by one. */
  ghost predicate Delivered(run: Run, code: Code, c: Conn, keep: bool, held: nat, bytes: seq<byte>,
                            handed: seq<seq<byte>>)
  {
    && code == run.code && c == run.conn
    && (keep && run.unbuilt ==> bytes == [])
    && (keep && held == 0 && code == Ok && run.exact ==> bytes == Flatten(run.pieces) && handed == run.pieces)
  }

  /** Between two rounds: the whole run, the pieces read, whether each had its size, the size of the content at first
      and now, the chunks for which memory is refused, and the number of the next one. */
  datatype Position = Position(run: Run, pieces: seq<seq<byte>>, exact: bool, held: nat, total: nat,
                               refused: set<nat>, round: nat)

  /** The run is what has been done and what remains, and the content holds what has been done. */
  ghost predicate Progress(p: Position, c: Conn, keep: bool, bytes: seq<byte>, handed: seq<seq<byte>>) {
    && Prepended(p.pieces, p.exact, Body(c, keep, p.total, p.refused, p.round)) == p.run
    && (keep && p.held == 0 && p.exact ==> Collected(p.pieces, bytes, handed))
  }

  ghost predicate Collected(pieces: seq<seq<byte>>, bytes: seq<byte>, handed: seq<seq<byte>>) {
    bytes == Flatten(pieces) && handed == pieces
  }

  lemma NothingYet(p: Position, c: Conn, keep: bool, bytes: seq<byte>)
    requires p == Position(Body(c, keep, p.held, p.refused, 0), [], true, p.held, p.held, p.refused, 0)
    requires |bytes| == p.held
    ensures Progress(p, c, keep, bytes, [])
  {
    hide Body;
    PrependedNothing(p.run);
  }

  lemma OnePieceMore(p: Position, c: Conn, keep: bool, bytes: seq<byte>, handed: seq<seq<byte>>,
                     r: Round, bytes': seq<byte>, got: seq<seq<byte>>)
    requires Progress(p, c, keep, bytes, handed)
    requires r == OneRound(c, keep, p.total, p.round !in p.refused) && r.Chunk?
    requires keep ==> |bytes| == p.total && p.held <= p.total
    requires keep ==> Extended(bytes, bytes', p.total - p.held, r.size, r.piece, got)
    ensures var p' := p.(total := p.total + r.size, round := p.round + 1, pieces := p.pieces + [r.piece],
                         exact := p.exact && |r.piece| == r.size);
            Progress(p', r.conn, keep, bytes', handed + got)
  {
    hide Body, OneRound, Prepended, Extended, Collected;
    BodyStep(p.pieces, p.exact, c, keep, p.total, p.refused, p.round);
    if keep && p.held == 0 && p.exact && |r.piece| == r.size {
      CollectedMore(p.pieces, bytes, handed, r.size, r.piece, bytes', got);
    }
  }

  lemma CollectedMore(pieces: seq<seq<byte>>, bytes: seq<byte>, handed: seq<seq<byte>>,
                      size: nat, piece: seq<byte>, bytes': seq<byte>, got: seq<seq<byte>>)
    requires Collected(pieces, bytes, handed) && |piece| == size && Extended(bytes, bytes', |bytes|, size, piece, got)
    ensures Collected(pieces + [piece], bytes', handed + got)
  {
    ExtendedFlatten(bytes, bytes', |bytes|, size, piece, got, pieces);
    hide Flatten;
  }

  lemma AtTheEnd(p: Position, c: Conn, keep: bool, bytes: seq<byte>, handed: seq<seq<byte>>,
                 r: Round, bytes': seq<byte>, got: seq<seq<byte>>)
    requires Progress(p, c, keep, bytes, handed)
    requires r == OneRound(c, keep, p.total, p.round !in p.refused) && r.End?
    requires keep && r.unbuilt ==> bytes' == []
    requires keep && r.code == Ok ==> bytes' == bytes && got == []
    ensures Delivered(p.run, r.code, r.conn, keep, p.held, bytes', handed + got)
  {
    hide Body, OneRound, Flatten;
    BodyStep(p.pieces, p.exact, c, keep, p.total, p.refused, p.round);
    OkHandsNothing(c, keep, p.total, p.round !in p.refused);
    assert r.code == Ok ==> p.pieces + r.handed == p.pieces && (keep ==> handed + got == handed);
  }

  lemma OkHandsNothing(c: Conn, keep: bool, held: nat, granted: bool)
    ensures var r := OneRound(c, keep, held, granted); r.End? && r.code == Ok ==> r.handed == []
  {
    hide Line, Data, Closing, SizeIn;
  }

  /** Runs that end alike. */
  ghost predicate Alike(r: Run, s: Run) {
    r.code == s.code && r.conn == s.conn
  }

  // ----- whatever the pieces -----

  /** No error, now or later. */
  ghost predicate Clean(c: Conn) {
    !c.failed && forall a <- c.arrivals :: a.Piece?
  }

  ghost function Bytes(arrivals: seq<Arrival>): seq<byte> {
    if arrivals == [] then [] else
      (match arrivals[0] case Piece(bytes) => bytes case IoError => []) + Bytes(arrivals[1..])
  }

  /** All that has come and will come. */
  ghost function Stream(c: Conn): seq<byte> {
    c.buffer + Bytes(c.arrivals)
  }

  lemma WorkIsClean(c: Conn)
    requires Clean(c)
    ensures Clean(Work(c)) && Stream(Work(c)) == Stream(c)
  {
    if c.arrivals != [] {
      assert c.arrivals[0] in c.arrivals;
      Associative(c.buffer, c.arrivals[0].bytes, Bytes(c.arrivals[1..]));
    }
  }

  /** The connection after so many `xio_dowork`, at least one, that there are `n` bytes. */
  ghost function Gather(c: Conn, n: nat): Conn
    decreases |c.arrivals|
  {
    var c' := Work(c);
    if |c'.buffer| >= n || c'.arrivals == [] then c' else Gather(c', n)
  }

  /** How many that takes. */
  ghost function Rounds(c: Conn, n: nat): (rounds: nat)
    ensures rounds >= 1
    decreases |c.arrivals|
  {
    var c' := Work(c);
    if |c'.buffer| >= n || c'.arrivals == [] then 1 else 1 + Rounds(c', n)
  }

  /** Behind the next `n` bytes. */
  ghost function Past(c: Conn, n: nat): Conn {
    var g := Gather(c, n);
    if n <= |g.buffer| then Drop(g, n) else g
  }

  lemma {:induction false} Gathered(c: Conn, n: nat)
    requires Clean(c) && n <= |Stream(c)|
    ensures var g := Gather(c, n); Clean(g) && Stream(g) == Stream(c) && n <= |g.buffer|
    decreases |c.arrivals|
  {
    WorkIsClean(c);
    var c' := Work(c);
    if |c'.buffer| < n && c'.arrivals != [] { Gathered(c', n); }
  }

  lemma {:induction false} ReceivesGathered(c: Conn, n: nat)
    requires Clean(c) && 0 < n <= |Stream(c)|
    ensures n <= |Gather(c, n).buffer|
    ensures Receive(c, n) == (Done(Gather(c, n).buffer[..n]), Past(c, n))
    decreases |c.arrivals|
  {
    Gathered(c, n);
    WorkIsClean(c);
    var c' := Work(c);
    if |c'.buffer| < n { ReceivesGathered(c', n); }
  }

  /** Waiting for bytes has no time limit: without an error it ends exactly if enough of them come. */
  lemma {:induction false} WaitsForEver(c: Conn, n: nat)
    requires Clean(c) && n > 0
    ensures Receive(c, n).0.Never? <==> |Stream(c)| < n
    decreases |c.arrivals|
  {
    if n <= |Stream(c)| {
      ReceivesGathered(c, n);
    } else {
      WorkIsClean(c);
      var c' := Work(c);
      if c'.arrivals != [] { WaitsForEver(c', n); }
    }
  }

  /** Reading what comes first leaves the rest, however it arrives. */
  lemma ReceivesData(c: Conn, data: seq<byte>, more: seq<byte>)
    requires Clean(c) && Stream(c) == data + more && data != []
    ensures Receive(c, |data|) == (Done(data), Past(c, |data|))
    ensures Clean(Past(c, |data|)) && Stream(Past(c, |data|)) == more
  {
    ReceivesGathered(c, |data|);
    Gathered(c, |data|);
    PastIsRest(Gather(c, |data|), |data|, data, more);
  }

  lemma PastIsRest(g: Conn, n: nat, data: seq<byte>, more: seq<byte>)
    requires n == |data| <= |g.buffer| && Stream(g) == data + more
    ensures g.buffer[..n] == data && Stream(Drop(g, n)) == more
  {
    assert g.buffer[..n] == Stream(g)[..n];
    assert g.buffer[n..] + Bytes(g.arrivals) == Stream(g)[n..];
  }

  /** Bytes that are there already do not change what is still gathered. */
  lemma {:induction false} GatherBehind(c: Conn, first: seq<byte>, n: nat)
    requires n > 0
    ensures var g := Gather(c, n);
            Gather(c.(buffer := first + c.buffer), |first| + n) == g.(buffer := first + g.buffer)
    ensures Rounds(c.(buffer := first + c.buffer), |first| + n) == Rounds(c, n)
    decreases |c.arrivals|
  {
    var c' := Work(c);
    var d := c.(buffer := first + c.buffer);
    if c.arrivals != [] && c.arrivals[0].Piece? { Associative(first, c.buffer, c.arrivals[0].bytes); }
    assert Work(d) == c'.(buffer := first + c'.buffer);
    if |c'.buffer| < n && c'.arrivals != [] { GatherBehind(c', first, n); }
  }

  /** The connection behind a line of `n` characters, once its CR has come: an LF that has come with it is consumed. */
  ghost function BehindLine(c: Conn, n: nat): Conn {
    var g := Gather(c, n + 1);
    if |g.buffer| <= n then g else Drop(g, if n + 1 < |g.buffer| && g.buffer[n + 1] == LF then n + 2 else n + 1)
  }

  lemma BehindLineBehind(c: Conn, first: seq<byte>, n: nat)
    requires n < |Gather(c, n + 1).buffer|
    ensures BehindLine(c.(buffer := first + c.buffer), |first| + n) == BehindLine(c, n)
  {
    GatherBehind(c, first, n + 1);
    var g := Gather(c, n + 1);
    forall k | n < k <= |g.buffer| ensures (first + g.buffer)[|first| + k..] == g.buffer[k..] {}
  }

  /** A line whose CR has not come: what has come is the beginning of its text. */
  lemma LineGoesOn(c: Conn, line: seq<byte>, more: seq<byte>)
    requires Clean(c) && Stream(c) == line + [CR] + more && |c.buffer| <= |line|
    ensures c.arrivals != [] && c.buffer == line[..|c.buffer|]
    ensures Stream(c.(buffer := [])) == line[|c.buffer|..] + [CR] + more
  {
    assert Stream(c)[..|c.buffer|] == c.buffer;
    assert Stream(c)[|c.buffer|..] == line[|c.buffer|..] + [CR] + more;
    assert [] + Bytes(c.arrivals) == Stream(c)[|c.buffer|..];
  }

  /** The text of a line is complete with the next attempt. */
  lemma LineEnds(c: Conn, text: seq<byte>, line: seq<byte>, more: seq<byte>)
    requires Clean(c) && Stream(c) == line + [CR] + more && CR !in line && |text| + |line| < TEMP_BUFFER_SIZE - 1
    requires |Work(c).buffer| > |line|
    ensures TryLine(c, text) == Ended(Done(text + line), BehindLine(c, |line|)) && Rounds(c, |line| + 1) == 1
  {
    WorkIsClean(c);
    var b, n := Work(c).buffer, |line|;
    hide Work, IndexOfCr, Stream;
    LineIsThere(Work(c), line, more);
  }

  lemma LineIsThere(c: Conn, line: seq<byte>, more: seq<byte>)
    requires Stream(c) == line + [CR] + more && CR !in line && |c.buffer| > |line|
    ensures IndexOfCr(c.buffer) == |line| && c.buffer[..|line|] == line
  {
    var n := |line|;
    assert c.buffer[n] == Stream(c)[n] == CR;
    assert c.buffer[..n] == Stream(c)[..n] == line;
    FirstCr(c.buffer, n);
  }

  /** The next attempt brings only the beginning of the text: what remains to be read is the rest of the line. */
  lemma LineContinues(c: Conn, text: seq<byte>, line: seq<byte>, more: seq<byte>) returns (c2: Conn, rest: seq<byte>)
    requires Clean(c) && Stream(c) == line + [CR] + more && CR !in line && |text| + |line| < TEMP_BUFFER_SIZE - 1
    requires |Work(c).buffer| <= |line|
    ensures Clean(c2) && Stream(c2) == rest + [CR] + more && CR !in rest && line == Work(c).buffer + rest
    ensures TryLine(c, text) == NotYet(text + Work(c).buffer, c2)
    ensures Rounds(c, |line| + 1) == 1 + Rounds(c2, |rest| + 1) && BehindLine(c, |line|) == BehindLine(c2, |rest|)
  {
    hide Rounds, BehindLine, Clean, Stream, IndexOfCr;
    WorkIsClean(c);
    var c', b := Work(c), Work(c).buffer;
    LineGoesOn(c', line, more);
    FirstCr(b, |b|);
    c2, rest := c'.(buffer := []), line[|b|..];
    NothingWaits(c', c2, rest + [CR], more);
    RoundsBehind(c, c2, b, |line|);
  }

  lemma NothingWaits(c: Conn, c2: Conn, first: seq<byte>, more: seq<byte>)
    requires Clean(c) && c2 == c.(buffer := []) && Stream(c2) == first + more
    ensures Clean(c2) && |Stream(c2)| >= |first|
  {}

  /** Where a line ends does not depend on whether its beginning has been taken away already. */
  lemma RoundsBehind(c: Conn, c2: Conn, first: seq<byte>, n: nat)
    requires Work(c).buffer == first && |first| <= n && Work(c).arrivals != [] && c2 == Work(c).(buffer := [])
    requires Clean(c2) && n + 1 - |first| <= |Stream(c2)|
    ensures Rounds(c, n + 1) == 1 + Rounds(c2, n - |first| + 1) && BehindLine(c, n) == BehindLine(c2, n - |first|)
  {
    hide Clean, Stream, Work, Rounds, Gather, BehindLine;
    var m := n - |first|;
    Refilled(Work(c), c2, first);
    SameBehind(c, n);
    GatherBehind(c2, first, m + 1);
    Gathered(c2, m + 1);
    BehindLineBehind(c2, first, m);
  }

  lemma Refilled(c: Conn, c2: Conn, first: seq<byte>)
    requires c.buffer == first && c2 == c.(buffer := [])
    ensures c2.(buffer := first + c2.buffer) == c
  {
    assert first + [] == first;
  }

  lemma SameBehind(c: Conn, n: nat)
    requires |Work(c).buffer| <= n && Work(c).arrivals != []
    ensures BehindLine(c, n) == BehindLine(Work(c), n)
    ensures Rounds(c, n + 1) == 1 + Rounds(Work(c), n + 1)
  {}

  /** Reading a line, with some of its text read before. */
  lemma {:induction false} LineRead(c: Conn, text: seq<byte>, line: seq<byte>, more: seq<byte>, retries: nat)
    requires Clean(c) && Stream(c) == line + [CR] + more && CR !in line && |text| + |line| < TEMP_BUFFER_SIZE - 1
    ensures if Rounds(c, |line| + 1) > retries + 1 then Line(c, text, retries).0 == Failed
            else Line(c, text, retries) == (Done(text + line), BehindLine(c, |line|))
    decreases retries
  {
    hide TryLine, Work, Rounds, BehindLine, Clean, Stream;
    if |Work(c).buffer| > |line| {
      LineEnds(c, text, line, more);
    } else {
      var c2, rest := LineContinues(c, text, line, more);
      if retries > 0 {
        LineRead(c2, text + Work(c).buffer, rest, more, retries - 1);
        Associative(text, Work(c).buffer, rest);
      }
    }
  }

  // ----- chunked messages -----

  /** A chunk of a message: the line that gives its size, and its data. */
  datatype Part = Part(line: seq<byte>, data: seq<byte>)

  /** A line that fits into the buffer. */
  predicate Fits(line: seq<byte>) {
    CR !in line && |line| <= 1022
  }

  ghost predicate Spelled(p: Part) {
    Fits(p.line) && SizeIn(p.line) == Some(|p.data|) && p.data != []
  }

  ghost predicate WellFormed(p: Part) {
    Spelled(p) && |p.data| <= 0x7FFF_FFFF
  }

  ghost predicate EndLine(line: seq<byte>) {
    Fits(line) && SizeIn(line) == Some(0)
  }

  ghost function PartAndMore(p: Part, more: seq<byte>): seq<byte> {
    p.line + [CR] + ([LF] + (p.data + (CRLF + more)))
  }

  /** A chunked body (section 4.1 of RFC 7230, without trailers) with something behind it. */
  ghost function Wire(parts: seq<Part>, last: seq<byte>, tail: seq<byte>): seq<byte> {
    if parts == [] then last + [CR] + ([LF] + (CRLF + tail)) else PartAndMore(parts[0], Wire(parts[1..], last, tail))
  }

  ghost function Datas(parts: seq<Part>): seq<seq<byte>> {
    if parts == [] then [] else [parts[0].data] + Datas(parts[1..])
  }

  ghost function Size(parts: seq<Part>): nat {
    if parts == [] then 0 else |parts[0].data| + Size(parts[1..])
  }

  /** The CR of a line of `n` characters comes in time, and when it is looked for, the LF behind it has come too. */
  ghost predicate Together(c: Conn, n: nat) {
    Rounds(c, n + 1) <= 2001 && |Gather(c, n + 1).buffer| > n + 1
  }

  ghost function AfterPart(c: Conn, p: Part): Conn {
    Past(Past(BehindLine(c, |p.line|), |p.data|), 2)
  }

  /** So it is with every size line of a message. */
  ghost predicate AllTogether(c: Conn, parts: seq<Part>, last: seq<byte>)
    decreases |parts|
  {
    if parts == [] then Together(c, |last|)
    else Together(c, |parts[0].line|) && AllTogether(AfterPart(c, parts[0]), parts[1..], last)
  }

  /** Reading a size line. */
  lemma SizeLineRead(c: Conn, line: seq<byte>, more: seq<byte>)
    requires Clean(c) && Stream(c) == line + [CR] + ([LF] + more) && Fits(line)
    ensures if Rounds(c, |line| + 1) > MAX_RECEIVE_RETRY + 1 then Line(c, [], MAX_RECEIVE_RETRY).0 == Failed
            else Line(c, [], MAX_RECEIVE_RETRY) == (Done(line), BehindLine(c, |line|))
    ensures var c1 := BehindLine(c, |line|);
            Clean(c1) && Stream(c1) == if |Gather(c, |line| + 1).buffer| > |line| + 1 then more else [LF] + more
  {
    hide Line, Rounds, Clean, Stream, Gather, BehindLine;
    LineRead(c, [], line, [LF] + more, MAX_RECEIVE_RETRY);
    assert [] + line == line;
    BehindSizeLine(c, line, more);
  }

  lemma BehindSizeLine(c: Conn, line: seq<byte>, more: seq<byte>)
    requires Clean(c) && Stream(c) == line + [CR] + ([LF] + more)
    ensures var c1 := BehindLine(c, |line|);
            Clean(c1) && Stream(c1) == if |Gather(c, |line| + 1).buffer| > |line| + 1 then more else [LF] + more
  {
    var n := |line|;
    Gathered(c, n + 1);
    var g := Gather(c, n + 1);
    hide Gather;
    if |g.buffer| > n + 1 {
      assert g.buffer[n + 1] == Stream(g)[n + 1] == LF;
      assert line + [CR] + ([LF] + more) == (line + [CR] + [LF]) + more;
      PastIsRest(g, n + 2, line + [CR] + [LF], more);
    } else {
      PastIsRest(g, n + 1, line + [CR], [LF] + more);
    }
  }

  /** Reading so many bytes with `readChunk`. */
  lemma Taken(c: Conn, data: seq<byte>, more: seq<byte>)
    requires Clean(c) && Stream(c) == data + more && 0 < |data| <= INT_MAX
    ensures Take(c, |data|) == (Done(data), Past(c, |data|))
    ensures Clean(Past(c, |data|)) && Stream(Past(c, |data|)) == more
  {
    ReceivesData(c, data, more);
  }

  lemma ClosingRead(c: Conn, two: seq<byte>, more: seq<byte>)
    requires Clean(c) && Stream(c) == two + more && |two| == 2
    ensures Closing(c) == (if two == CRLF then Ok else ReadDataFailed, Past(c, 2))
    ensures Clean(Past(c, 2)) && Stream(Past(c, 2)) == more
  {
    hide Clean, Stream, Past, Take;
    Taken(c, two, more);
  }

  lemma DataTaken(c: Conn, data: seq<byte>, more: seq<byte>)
    requires Clean(c) && Stream(c) == data + more && 0 < |data| <= INT_MAX
    ensures Data(c, |data|, true) == (Done(data), Past(c, |data|))
    ensures Clean(Past(c, |data|)) && Stream(Past(c, |data|)) == more
  {
    hide Clean, Stream, Past, Take;
    Taken(c, data, more);
  }

  /** A chunk whose size line comes together is read; otherwise the LF that stays behind spoils it. */
  lemma RoundOfPart(c: Conn, p: Part, more: seq<byte>, held: nat)
    requires Clean(c) && Stream(c) == PartAndMore(p, more) && WellFormed(p) && held + |p.data| < 0xFFFF_FFFF_FFFF_FFFF
    ensures Together(c, |p.line|) ==>
              && OneRound(c, true, held, true) == Chunk(p.data, |p.data|, AfterPart(c, p))
              && Clean(AfterPart(c, p)) && Stream(AfterPart(c, p)) == more
    ensures !Together(c, |p.line|) ==>
              OneRound(c, true, held, true).End? && OneRound(c, true, held, true).code == ReadDataFailed
  {
    hide Line, Clean, Stream, Past, Gather, Rounds, BehindLine, SizeIn, Data, Closing;
    SizeLineRead(c, p.line, p.data + (CRLF + more));
    var c1 := BehindLine(c, |p.line|);
    if Together(c, |p.line|) {
      DataTaken(c1, p.data, CRLF + more);
      ClosingRead(Past(c1, |p.data|), CRLF, more);
    } else if Rounds(c, |p.line| + 1) <= MAX_RECEIVE_RETRY + 1 {
      TakenWithLf(c1, p.data, more);
    }
  }

  /** If the LF of the size line is taken for data, the two bytes behind are not CR and LF. */
  lemma TakenWithLf(c: Conn, data: seq<byte>, more: seq<byte>)
    requires Clean(c) && Stream(c) == [LF] + (data + (CRLF + more)) && 0 < |data| <= INT_MAX
    ensures Data(c, |data|, true).0.Done? && Closing(Data(c, |data|, true).1).0 == ReadDataFailed
  {
    hide Clean, Stream, Past, Data, Closing;
    var shifted, last := ShiftedByLf(data, more);
    DataTaken(c, shifted, last + ([LF] + more));
    ClosingRead(Past(c, |data|), last, [LF] + more);
  }

  lemma ShiftedByLf(data: seq<byte>, more: seq<byte>) returns (shifted: seq<byte>, last: seq<byte>)
    requires data != []
    ensures |shifted| == |data| && |last| == 2 && last != CRLF
    ensures [LF] + (data + (CRLF + more)) == shifted + (last + ([LF] + more))
  {
    var n := |data|;
    shifted, last := [LF] + data[..n - 1], [data[n - 1], CR];
    assert last[1] != CRLF[1];
    assert [LF] + (data + (CRLF + more)) == shifted + (last + ([LF] + more));
  }

  lemma RoundOfLast(c: Conn, last: seq<byte>, tail: seq<byte>, keep: bool, held: nat)
    requires Clean(c) && Stream(c) == last + [CR] + ([LF] + (CRLF + tail)) && EndLine(last)
    ensures var r := OneRound(c, keep, held, true);
            && r.End? && r.handed == []
            && if Together(c, |last|) then r.code == Ok && Clean(r.conn) && Stream(r.conn) == tail
               else r.code == ReadDataFailed
  {
    hide Line, Clean, Stream, Past, Gather, Rounds, BehindLine, SizeIn, Data, Closing;
    SizeLineRead(c, last, CRLF + tail);
    var c1 := BehindLine(c, |last|);
    if Together(c, |last|) {
      ClosingRead(c1, CRLF, tail);
    } else if Rounds(c, |last| + 1) <= MAX_RECEIVE_RETRY + 1 {
      assert [LF] + (CRLF + tail) == [LF, CR] + ([LF] + tail);
      ClosingRead(c1, [LF, CR], [LF] + tail);
      assert [LF, CR][0] != CRLF[0];
    }
  }

  /** Whatever the pieces it arrives in, a chunked message is decoded to its data, and consumed exactly to its end, if
      its size lines come together. If not, reading fails. */
  lemma {:induction false} DecodesExactlyIfTogether(c: Conn, parts: seq<Part>, last: seq<byte>, tail: seq<byte>,
                                                    held: nat, refused: set<nat>, round: nat)
    requires Clean(c) && Stream(c) == Wire(parts, last, tail)
    requires (forall p <- parts :: WellFormed(p)) && EndLine(last)
    requires held + Size(parts) < 0xFFFF_FFFF_FFFF_FFFF && forall k <- refused :: k < round
    ensures var run := Body(c, true, held, refused, round);
            if AllTogether(c, parts, last) then
              run.code == Ok && run.pieces == Datas(parts) && run.exact && Clean(run.conn) && Stream(run.conn) == tail
            else
              run.code == ReadDataFailed
    decreases |parts|
  {
    hide OneRound, Clean, Stream, Together, WellFormed, EndLine, AfterPart, PartAndMore;
    if parts == [] {
      RoundOfLast(c, last, tail, true, held);
    } else {
      RoundOfPart(c, parts[0], Wire(parts[1..], last, tail), held);
      if Together(c, |parts[0].line|) {
        var n := held + |parts[0].data|;
        DecodesExactlyIfTogether(AfterPart(c, parts[0]), parts[1..], last, tail, n, refused, round + 1);
      }
    }
  }

  /** A chunked message is coming, or has come, and something may come behind it. */
  ghost predicate IsMessage(c: Conn, parts: seq<Part>, last: seq<byte>, tail: seq<byte>) {
    && Clean(c) && Stream(c) == Wire(parts, last, tail)
    && (forall p <- parts :: WellFormed(p)) && EndLine(last) && Size(parts) < 0xFFFF_FFFF_FFFF_FFFF
  }

  /** How reading a message with sufficient memory ends, for the caller. */
  ghost predicate MessageRead(c: Conn, parts: seq<Part>, last: seq<byte>, tail: seq<byte>,
                              code: Code, c': Conn, bytes: seq<byte>, handed: seq<seq<byte>>)
  {
    if AllTogether(c, parts, last) then
      code == Ok && bytes == Flatten(Datas(parts)) && handed == Datas(parts) && Stream(c') == tail
    else
      code == ReadDataFailed
  }

  lemma MessagesRead(c: Conn, run: Run, code: Code, c': Conn, bytes: seq<byte>, handed: seq<seq<byte>>)
    ensures run == Body(c, true, 0, {}, 0) && Delivered(run, code, c', true, 0, bytes, handed) ==>
              forall parts, last, tail | IsMessage(c, parts, last, tail) ::
                MessageRead(c, parts, last, tail, code, c', bytes, handed)
  {
    hide AllTogether, Body, Clean, Stream, WellFormed, EndLine;
    if run == Body(c, true, 0, {}, 0) && Delivered(run, code, c', true, 0, bytes, handed) {
      forall parts, last, tail | IsMessage(c, parts, last, tail)
        ensures MessageRead(c, parts, last, tail, code, c', bytes, handed)
      {
        DecodesExactlyIfTogether(c, parts, last, tail, 0, {}, 0);
      }
    }
  }

  /** A message that has come completely is decoded. */
  lemma {:induction false} TogetherIfAllThere(c: Conn, parts: seq<Part>, last: seq<byte>, tail: seq<byte>)
    requires Clean(c) && c.arrivals == [] && c.buffer == Wire(parts, last, tail)
    requires forall p <- parts :: WellFormed(p)
    ensures AllTogether(c, parts, last)
    decreases |parts|
  {
    hide WellFormed, SizeIn, EndLine;
    if parts != [] {
      var more := Wire(parts[1..], last, tail);
      assert c.buffer == PartAndMore(parts[0], more);
      AfterPartAllThere(c, parts[0], more);
      TogetherIfAllThere(AfterPart(c, parts[0]), parts[1..], last, tail);
    }
  }

  lemma AfterPartAllThere(c: Conn, p: Part, more: seq<byte>)
    requires Clean(c) && c.arrivals == [] && c.buffer == PartAndMore(p, more)
    ensures Together(c, |p.line|) && AfterPart(c, p) == c.(buffer := more)
  {
    var n, b := |p.line|, c.buffer;
    assert b[n + 1] == LF && b[n + 2..] == p.data + (CRLF + more);
    assert BehindLine(c, n) == Drop(c, n + 2);
  }

  // ----- skipping chunked messages -----

  /** Bytes are thrown away exactly if they come within the retries. */
  lemma {:induction false} SkipsData(c: Conn, data: seq<byte>, more: seq<byte>, retries: nat)
    requires Clean(c) && Stream(c) == data + more && data != []
    ensures Skip(c, |data|, retries).0 == if Rounds(c, |data|) <= retries + 1 then Done(0) else Failed
    ensures Rounds(c, |data|) <= retries + 1 ==> Skip(c, |data|, retries).1 == Past(c, |data|)
    decreases retries
  {
    WorkIsClean(c);
    var c', n := Work(c), |data|;
    if |c'.buffer| < n {
      var c2, rest := DataContinues(c', data, more);
      PastBehind(c, c2, c'.buffer, n);
      if retries > 0 {
        SkipsData(c2, rest, more, retries - 1);
      }
    }
  }

  /** What has come is thrown away; the rest is still to come. */
  lemma DataContinues(c: Conn, data: seq<byte>, more: seq<byte>) returns (c2: Conn, rest: seq<byte>)
    requires Clean(c) && Stream(c) == data + more && |c.buffer| < |data|
    ensures c2 == c.(buffer := []) && rest == data[|c.buffer|..] && c.arrivals != []
    ensures Clean(c2) && Stream(c2) == rest + more
  {
    c2, rest := c.(buffer := []), data[|c.buffer|..];
    assert Stream(c)[|c.buffer|..] == rest + more;
    assert [] + Bytes(c.arrivals) == Stream(c)[|c.buffer|..];
  }

  lemma PastBehind(c: Conn, c2: Conn, first: seq<byte>, n: nat)
    requires Work(c).buffer == first && |first| < n && Work(c).arrivals != [] && c2 == Work(c).(buffer := [])
    requires Clean(c2) && n - |first| <= |Stream(c2)|
    ensures Rounds(c, n) == 1 + Rounds(c2, n - |first|) && Past(c, n) == Past(c2, n - |first|)
  {
    hide Clean, Stream, Work;
    var m := n - |first|;
    assert first + [] == first;
    GatherBehind(c2, first, m);
    Gathered(c2, m);
    var g := Gather(c2, m);
    assert Gather(c, n) == g.(buffer := first + g.buffer);
    assert (first + g.buffer)[n..] == g.buffer[m..];
  }

  /** So many bytes come within the retries. */
  ghost predicate InTime(c: Conn, n: nat) {
    Rounds(c, n) <= 2001
  }

  /** A chunk can be skipped. The conversion of its size must not look like a failure. */
  ghost predicate Skippable(c: Conn, p: Part) {
    Together(c, |p.line|) && InTime(BehindLine(c, |p.line|), |p.data|) && ToInt(|p.data|) >= 0
  }

  ghost predicate AllSkippable(c: Conn, parts: seq<Part>, last: seq<byte>)
    decreases |parts|
  {
    if parts == [] then Together(c, |last|)
    else Skippable(c, parts[0]) && AllSkippable(AfterPart(c, parts[0]), parts[1..], last)
  }

  lemma DataSkipped(c: Conn, data: seq<byte>, more: seq<byte>)
    requires Clean(c) && Stream(c) == data + more && data != []
    ensures Data(c, |data|, false).0 ==
            if InTime(c, |data|) && ToInt(|data|) >= 0 then Done([]) else Failed
    ensures InTime(c, |data|) ==> Data(c, |data|, false).1 == Past(c, |data|)
    ensures Clean(Past(c, |data|)) && Stream(Past(c, |data|)) == more
  {
    hide Clean, Stream, Past, Rounds, Skip, ToInt;
    SkipsData(c, data, more, MAX_RECEIVE_RETRY);
    ReceivesData(c, data, more);
  }

  lemma RoundSkipped(c: Conn, p: Part, more: seq<byte>, held: nat)
    requires Clean(c) && Stream(c) == PartAndMore(p, more) && Spelled(p)
    ensures Skippable(c, p) ==>
              && OneRound(c, false, held, true) == Chunk([], |p.data|, AfterPart(c, p))
              && Clean(AfterPart(c, p)) && Stream(AfterPart(c, p)) == more
    ensures !Skippable(c, p) ==>
              OneRound(c, false, held, true).End? && OneRound(c, false, held, true).code == ReadDataFailed
  {
    hide Line, Clean, Stream, Past, Gather, Rounds, BehindLine, SizeIn, Data, InTime, ToInt, Closing;
    SizeLineRead(c, p.line, p.data + (CRLF + more));
    var c1 := BehindLine(c, |p.line|);
    if Together(c, |p.line|) {
      DataSkipped(c1, p.data, CRLF + more);
      ClosingRead(Past(c1, |p.data|), CRLF, more);
    } else if Rounds(c, |p.line| + 1) <= MAX_RECEIVE_RETRY + 1 {
      SkippedWithLf(c1, p.data, more);
    }
  }

  lemma SkippedWithLf(c: Conn, data: seq<byte>, more: seq<byte>)
    requires Clean(c) && Stream(c) == [LF] + (data + (CRLF + more)) && data != []
    ensures Data(c, |data|, false).0 != Never
    ensures Data(c, |data|, false).0.Done? ==> Closing(Data(c, |data|, false).1).0 == ReadDataFailed
  {
    hide Clean, Stream, Past, Data, InTime, ToInt, Closing;
    var shifted, last := ShiftedByLf(data, more);
    DataSkipped(c, shifted, last + ([LF] + more));
    ClosingRead(Past(c, |data|), last, [LF] + more);
  }

  /** Whatever the pieces it arrives in, a message that is skipped is consumed exactly to its end if its size lines come
      together and its data in time. If not, that is a failure to read. */
  lemma {:induction false} SkipsExactlyIfInTime(c: Conn, parts: seq<Part>, last: seq<byte>, tail: seq<byte>,
                                                held: nat, round: nat)
    requires Clean(c) && Stream(c) == Wire(parts, last, tail)
    requires (forall p <- parts :: Spelled(p)) && EndLine(last)
    ensures var run := Body(c, false, held, {}, round);
            if AllSkippable(c, parts, last) then run.code == Ok && Clean(run.conn) && Stream(run.conn) == tail
            else run.code == ReadDataFailed
    decreases |parts|
  {
    hide OneRound, Clean, Stream, Together, Skippable, Spelled, EndLine, AfterPart, PartAndMore;
    if parts == [] {
      RoundOfLast(c, last, tail, false, held);
    } else {
      RoundSkipped(c, parts[0], Wire(parts[1..], last, tail), held);
      if Skippable(c, parts[0]) {
        var n := held + |parts[0].data|;
        SkipsExactlyIfInTime(AfterPart(c, parts[0]), parts[1..], last, tail, n, round + 1);
      }
    }
  }

  /** A chunked message of any size. */
  ghost predicate IsLongMessage(c: Conn, parts: seq<Part>, last: seq<byte>, tail: seq<byte>) {
    && Clean(c) && Stream(c) == Wire(parts, last, tail)
    && (forall p <- parts :: Spelled(p)) && EndLine(last)
  }

  ghost predicate MessageSkipped(c: Conn, parts: seq<Part>, last: seq<byte>, tail: seq<byte>, code: Code, c': Conn) {
    if AllSkippable(c, parts, last) then code == Ok && Stream(c') == tail else code == ReadDataFailed
  }

  lemma MessagesSkipped(c: Conn, run: Run)
    requires run == Body(c, false, 0, {}, 0)
    ensures forall parts, last, tail | IsLongMessage(c, parts, last, tail) ::
              MessageSkipped(c, parts, last, tail, run.code, run.conn)
  {
    hide AllSkippable, Body, Clean, Stream, Spelled, EndLine;
    forall parts, last, tail | IsLongMessage(c, parts, last, tail)
      ensures MessageSkipped(c, parts, last, tail, run.code, run.conn)
    {
      SkipsExactlyIfInTime(c, parts, last, tail, 0, 0);
    }
  }

  // ----- errors -----

  /** From `c` to `c'` the connection has gone through some of what was to come, and has noticed an error exactly if
      there was one among it. */
  ghost predicate Went(c: Conn, c': Conn) {
    exists k: nat :: Passed(c, c', k)
  }

  ghost predicate Passed(c: Conn, c': Conn, k: nat) {
    && k <= |c.arrivals| && c'.arrivals == c.arrivals[k..]
    && (c'.failed <==> c.failed || IoError in c.arrivals[..k])
  }

  lemma WentNowhere(c: Conn, c': Conn)
    requires c'.arrivals == c.arrivals && c'.failed == c.failed
    ensures Went(c, c')
  {
    assert Passed(c, c', 0);
  }

  lemma WentOn(c: Conn, c': Conn, c'': Conn)
    requires Went(c, c') && Went(c', c'')
    ensures Went(c, c'')
  {
    var k: nat :| Passed(c, c', k);
    var l: nat :| Passed(c', c'', l);
    assert c.arrivals[..k + l] == c.arrivals[..k] + c'.arrivals[..l];
    assert Passed(c, c'', k + l);
  }

  lemma WorkWent(c: Conn)
    ensures Went(c, Work(c))
  {
    var k := if c.arrivals == [] then 0 else 1;
    assert k == 1 ==> c.arrivals[..k] == [c.arrivals[0]];
    assert Passed(c, Work(c), k);
  }

  lemma {:induction false} ReceiveWent(c: Conn, count: int)
    ensures var (got, c') := Receive(c, count); Went(c, c') && (got.Done? && count > 0 ==> !c'.failed)
    decreases |c.arrivals|
  {
    hide Went, Work;
    var c' := Work(c);
    if count <= 0 {
      WentNowhere(c, c);
    } else {
      WorkWent(c);
      if !c'.failed && |c'.buffer| >= count {
        WentNowhere(c', Drop(c', count));
        WentOn(c, c', Drop(c', count));
      } else if !c'.failed && c'.arrivals != [] {
        ReceiveWent(c', count);
        WentOn(c, c', Receive(c', count).1);
      }
    }
  }

  lemma {:induction false} LineWent(c: Conn, text: seq<byte>, retries: nat)
    requires |text| < TEMP_BUFFER_SIZE - 1
    ensures var (got, c') := Line(c, text, retries); Went(c, c') && (got.Done? ==> !c'.failed)
    decreases retries
  {
    hide Went, Work;
    var c' := Work(c);
    WorkWent(c);
    var a := TryLine(c, text);
    WentNowhere(c', a.conn);
    WentOn(c, c', a.conn);
    if a.NotYet? && retries > 0 {
      LineWent(a.conn, a.text, retries - 1);
      WentOn(c, a.conn, Line(a.conn, a.text, retries - 1).1);
    }
  }

  lemma {:induction false} SkipWent(c: Conn, n: nat, retries: nat)
    ensures var (got, c') := Skip(c, n, retries); Went(c, c') && (got.Done? && n > 0 ==> !c'.failed)
    decreases retries
  {
    hide Went, Work;
    var c' := Work(c);
    if n == 0 {
      WentNowhere(c, c);
    } else {
      WorkWent(c);
      var c2 := if !c'.failed && |c'.buffer| >= n then Drop(c', n) else c'.(buffer := []);
      WentNowhere(c', c2);
      WentOn(c, c', c2);
      if !c'.failed && |c'.buffer| < n && retries > 0 {
        SkipWent(c2, n - |c'.buffer|, retries - 1);
        WentOn(c, c2, Skip(c2, n - |c'.buffer|, retries - 1).1);
      }
    }
  }

  lemma DataWent(c: Conn, size: nat, keep: bool)
    ensures Went(c, Data(c, size, keep).1)
  {
    hide Went, Receive, Skip;
    ReceiveWent(c, ToInt(size));
    SkipWent(c, size, MAX_RECEIVE_RETRY);
  }

  lemma ClosingWent(c: Conn)
    ensures var (code, c') := Closing(c); Went(c, c') && (code == Ok ==> !c'.failed)
    ensures Closing(c).0 in {Ok, ReadDataFailed, NeverReturns}
  {
    hide Went, Receive;
    ReceiveWent(c, 2);
  }

  lemma RoundWent(c: Conn, keep: bool, held: nat, granted: bool)
    ensures var r := OneRound(c, keep, held, granted);
            Went(c, r.conn) && (r.End? && r.code == Ok ==> !r.conn.failed)
    ensures var r := OneRound(c, keep, held, granted);
            && (r.End? && r.code == AllocFailed ==> keep && r.unbuilt)
            && (r.End? && r.unbuilt ==> r.code in {AllocFailed, ReadDataFailed})
  {
    hide Went, Line, Data, Closing, SizeIn;
    LineWent(c, [], MAX_RECEIVE_RETRY);
    var (line, c1) := Line(c, [], MAX_RECEIVE_RETRY);
    ClosingWent(c1);
    WentOn(c, c1, Closing(c1).1);
    if line.Done? && SizeIn(line.value).Some? {
      var size := SizeIn(line.value).value;
      DataWent(c1, size, keep);
      var c2 := Data(c1, size, keep).1;
      WentOn(c, c1, c2);
      ClosingWent(c2);
      WentOn(c, c2, Closing(c2).1);
    }
  }

  /** No error is overlooked: if a body has been read, kept or skipped, none came among what was gone through. And a
      content is given up if memory for it fails. */
  lemma {:induction false} NoErrorOverlooked(c: Conn, keep: bool, held: nat, refused: set<nat>, round: nat)
    ensures var run := Body(c, keep, held, refused, round);
            && (run.code == Ok ==>
                  !c.failed && exists k: nat ::
                    k <= |c.arrivals| && run.conn.arrivals == c.arrivals[k..] && IoError !in c.arrivals[..k])
            && Went(c, run.conn)
            && (run.code == AllocFailed ==> keep && run.unbuilt)
    decreases Left(c)
  {
    BodyWent(c, keep, held, refused, round);
    hide Body;
    var run := Body(c, keep, held, refused, round);
    if run.code == Ok {
      var k: nat :| Passed(c, run.conn, k);
    }
  }

  lemma {:induction false} BodyWent(c: Conn, keep: bool, held: nat, refused: set<nat>, round: nat)
    ensures var run := Body(c, keep, held, refused, round);
            && Went(c, run.conn) && (run.code == Ok ==> !run.conn.failed)
            && (run.code == AllocFailed ==> keep && run.unbuilt)
    decreases Left(c)
  {
    hide Went, OneRound;
    RoundWent(c, keep, held, round !in refused);
    var r := OneRound(c, keep, held, round !in refused);
    if r.Chunk? {
      BodyWent(r.conn, keep, held + r.size, refused, round + 1);
      WentOn(c, r.conn, Body(r.conn, keep, held + r.size, refused, round + 1).conn);
    }
  }

  /** Text that fills the buffer without a CR is thrown away with all that has come. */
  lemma LineTooLong(c: Conn, text: seq<byte>, retries: nat)
    requires |text| <= 1022 && !Work(c).failed && |Work(c).buffer| >= 1023 - |text|
    requires forall j | 0 <= j < 1023 - |text| :: Work(c).buffer[j] != 13
    ensures Line(c, text, retries) == (Failed, Conn([], Work(c).arrivals, false))
  {
    hide Work;
  }

  /** A line without a size is a response that cannot be understood. */
  lemma NoSize(c: Conn, line: seq<byte>, more: seq<byte>, keep: bool, held: nat, refused: set<nat>, round: nat)
    requires Clean(c) && Stream(c) == line + [13] + ([10] + more) && Fits(line) && InTime(c, |line| + 1)
    requires line == [] || (line[0] !in LOWER && line[0] !in UPPER)
    ensures Body(c, keep, held, refused, round).code == ReceiveResponseFailed
  {
    hide Line, Clean, Stream, Rounds, SizeIn, Data, Closing, Gather, BehindLine;
    SizeLineRead(c, line, more);
    SizeLineMeans(0, false, line);
  }

  /** Without memory for a chunk, or if the content would reach the largest size, the content is given up. */
  lemma NoMemory(c: Conn, p: Part, more: seq<byte>, held: nat, refused: set<nat>, round: nat)
    requires Clean(c) && Stream(c) == PartAndMore(p, more) && Spelled(p) && InTime(c, |p.line| + 1)
    requires round in refused || held + |p.data| >= 0xFFFF_FFFF_FFFF_FFFF
    ensures Body(c, true, held, refused, round).code == AllocFailed && Body(c, true, held, refused, round).unbuilt
  {
    hide Line, Clean, Stream, Rounds, SizeIn, Data, Closing, Gather, BehindLine;
    SizeLineRead(c, p.line, p.data + (CRLF + more));
  }

  /** If the last line is not followed by an empty one, reading fails, and the content is given up. */
  lemma SpoiledEnd(c: Conn, last: seq<byte>, two: seq<byte>, more: seq<byte>, keep: bool, held: nat,
                   refused: set<nat>, round: nat)
    requires Clean(c) && Stream(c) == last + [13] + ([10] + (two + more)) && EndLine(last) && Together(c, |last|)
    requires |two| == 2 && two != [13, 10]
    ensures var run := Body(c, keep, held, refused, round); run.code == ReadDataFailed && run.unbuilt
  {
    hide Line, Clean, Stream, Past, Rounds, SizeIn, Data, Closing, Gather, BehindLine;
    SizeLineRead(c, last, two + more);
    ClosingRead(BehindLine(c, |last|), two, more);
  }

  /** A body byte by byte: a chunk of ten bytes, the end, and one byte behind it. */
  lemma SampleBody(c: Conn)
    requires c.arrivals == [] && !c.failed
    requires c.buffer == [0x61, 13, 10, 1, 2, 3, 4, 5, 6, 7, 8, 9, 10, 13, 10, 0x30, 13, 10, 13, 10, 42]
    ensures var run := Body(c, true, 0, {}, 0);
            run.code == Ok && run.pieces == [[1, 2, 3, 4, 5, 6, 7, 8, 9, 10]] && Stream(run.conn) == [42]
  {
    var data: seq<byte> := [1, 2, 3, 4, 5, 6, 7, 8, 9, 10];
    var part := Part([0x61], data);
    SizeOfDigit(0x61);
    SizeOfDigit(0x30);
    assert [part][1..] == [];
    SampleBytes(c.buffer, data);
    assert c.buffer + Bytes([]) == c.buffer;
    hide Body, SizeIn, PartAndMore;
    TogetherIfAllThere(c, [part], [0x30], [42]);
    DecodesExactlyIfTogether(c, [part], [0x30], [42], 0, {}, 0);
    assert Datas([part]) == [data] + Datas([]);
  }

  lemma SampleBytes(buffer: seq<byte>, data: seq<byte>)
    requires buffer == [0x61, 13, 10, 1, 2, 3, 4, 5, 6, 7, 8, 9, 10, 13, 10, 0x30, 13, 10, 13, 10, 42]
    requires data == [1, 2, 3, 4, 5, 6, 7, 8, 9, 10]
    ensures buffer == Wire([Part([0x61], data)], [0x30], [42])
  {
    var part := Part([0x61], data);
    assert [part][1..] == [];
    assert Wire([], [0x30], [42]) == [0x30, 13, 10, 13, 10, 42];
  }

  // ----- messages that cannot be read -----

  ghost function FirstLine(parts: seq<Part>, last: seq<byte>): seq<byte> {
    if parts == [] then last else parts[0].line
  }

  /** Cutting any message behind the CR of its first line is enough to make it unreadable. */
  lemma CutBehindCr(parts: seq<Part>, last: seq<byte>, tail: seq<byte>)
    requires (forall p <- parts :: WellFormed(p)) && EndLine(last) && Size(parts) < 0xFFFF_FFFF_FFFF_FFFF
    ensures var message, k := Wire(parts, last, tail), |FirstLine(parts, last)| + 1;
            && k < |message|
            && var c := Conn([], [Piece(message[..k]), Piece(message[k..])], false);
               IsMessage(c, parts, last, tail) && Body(c, true, 0, {}, 0).code == ReadDataFailed
  {
    hide WellFormed, EndLine, Body, AllTogether, Together;
    var message, line := Wire(parts, last, tail), FirstLine(parts, last);
    var k := |line| + 1;
    assert message[..k] == line + [CR];
    var c := Conn([], [Piece(message[..k]), Piece(message[k..])], false);
    TwoPieces(message[..k], message[k..]);
    assert message[..k] + message[k..] == message;
    CutIsNotTogether(line, message[k..]);
    NotAllTogether(c, parts, last);
    DecodesExactlyIfTogether(c, parts, last, tail, 0, {}, 0);
  }

  lemma TwoPieces(first: seq<byte>, second: seq<byte>)
    ensures Clean(Conn([], [Piece(first), Piece(second)], false))
    ensures Stream(Conn([], [Piece(first), Piece(second)], false)) == first + second
  {
    var arrivals := [Piece(first), Piece(second)];
    assert Bytes(arrivals[1..]) == second + Bytes([]);
  }

  lemma NotAllTogether(c: Conn, parts: seq<Part>, last: seq<byte>)
    requires !Together(c, |FirstLine(parts, last)|)
    ensures !AllTogether(c, parts, last)
  {}

  lemma CutIsNotTogether(line: seq<byte>, more: seq<byte>)
    ensures !Together(Conn([], [Piece(line + [CR]), Piece(more)], false), |line|)
  {
    assert [] + (line + [CR]) == line + [CR];
  }

  lemma SizeOfDigit(digit: byte)
    requires HexDigit(digit) >= 0
    ensures SizeIn([digit]) == Some(HexDigit(digit))
  {
    var line := [digit];
    assert HexRun(line) == 1 && line[..1] == line;
    assert line[..0] == [] && HexNumber([]) == 0;
    assert HexNumber(line) == HexDigit(digit);
  }

  /** So there is a message of one byte that cannot be read. */
  lemma OneByteUnreadable()
    ensures exists c :: IsMessage(c, [Part([0x31], [0])], [0x30], []) && Body(c, true, 0, {}, 0).code == ReadDataFailed
  {
    hide Body, SizeIn, IsMessage, Wire;
    SizeOfDigit(0x31);
    SizeOfDigit(0x30);
    CutBehindCr([Part([0x31], [0])], [0x30], []);
  }
}
