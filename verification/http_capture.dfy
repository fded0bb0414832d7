/**
 Capture of an HTTP response body by the client's event callback: each ON_DATA
 chunk short enough for the 1024-byte response buffer is copied into it with
 `strncpy`, terminated, and the "response received" flag is raised.
 */
module HttpCapture {
  import opened CString
  import opened Options

  /** Size of the response buffer in bytes. */
  const BufSize: nat := 1024

  /** The response buffer and the flag the poll cycle tests. */
  datatype Capture = Capture(buffer: seq<byte>, received: bool)

  /** Events the HTTP client delivers to the callback during one request.
      Only ON_DATA is acted upon; the others (connected, headers, finish,
      error, ...) are ignored. `data_len` is the chunk's length. */
  datatype HttpEvent = OnData(chunk: seq<byte>) | OtherHttpEvent

  function Zeros(n: nat): (z: seq<byte>)
    ensures |z| == n
    ensures forall i :: 0 <= i < n ==> z[i] == Nul
  {
    seq(n, _ => Nul)
  }

  /** The buffer as it is at boot and after every poll cycle: all zero, flag down. */
  const Cleared := Capture(Zeros(BufSize), false)

  /** A buffer of the right size that holds a terminated string. */
  predicate WellFormed(c: Capture)
  {
    |c.buffer| == BufSize && Terminated(c.buffer)
  }

  /**
   `strncpy(dst, src, n)`: the bytes of `src` before its first NUL (at most
   `n` of them) are copied, the rest of the first `n` bytes is zero-filled,
   and bytes from `n` on are untouched.
   */
  function Strncpy(dst: seq<byte>, src: seq<byte>, n: nat): (r: seq<byte>)
    requires n <= |dst| && n <= |src|
    ensures |r| == |dst|
    ensures forall i :: 0 <= i < n ==>
              r[i] == (if i < |CStr(src[..n])| then src[i] else Nul)
    ensures forall i :: n <= i < |dst| ==> r[i] == dst[i]
  {
    var s := CStr(src[..n]);
    s + Zeros(n - |s|) + dst[n..]
  }

  /** The length test of the callback: `data_len < sizeof(buffer) - 1`. */
  predicate Accepted(chunk: seq<byte>)
  {
    |chunk| < BufSize - 1
  }

  /**
   The ON_DATA branch of the callback. An accepted chunk replaces the buffer's
   string by the chunk's own string (its bytes before any NUL), the byte at
   index `data_len` is set to NUL and the flag is raised; bytes after that
   index keep their old value. A chunk that is too long leaves everything unchanged.
   */
  function HandleData(c: Capture, chunk: seq<byte>): (r: Capture)
    requires |c.buffer| == BufSize
    ensures |r.buffer| == BufSize
    ensures Accepted(chunk) ==>
              && r.received
              && CStr(r.buffer) == CStr(chunk)
              && r.buffer[|chunk|] == Nul
              && (forall i :: 0 <= i < |chunk| ==>
                    r.buffer[i] == (if i < |CStr(chunk)| then chunk[i] else Nul))
              && (forall i :: |chunk| < i < BufSize ==> r.buffer[i] == c.buffer[i])
    ensures !Accepted(chunk) ==> r == c
    ensures Terminated(c.buffer) ==> Terminated(r.buffer)
  {
    if Accepted(chunk) then
      var n := |chunk|;
      assert chunk[..n] == chunk;
      var buf := Strncpy(c.buffer, chunk, n)[n := Nul];
      var k := |CStr(chunk)|;
      assert buf[..k] == CStr(chunk);
      assert buf[k] == Nul;
      UpToCharacterization(buf, Nul, CStr(chunk));
      Capture(buf, true)
    else
      c
  }

  /** The callback for any HTTP event. */
  function HandleHttp(c: Capture, e: HttpEvent): (r: Capture)
    requires |c.buffer| == BufSize
    ensures |r.buffer| == BufSize
    ensures e.OtherHttpEvent? ==> r == c
    ensures e.OnData? && !Accepted(e.chunk) ==> r == c
    ensures e.OnData? && Accepted(e.chunk) ==> r.received && CStr(r.buffer) == CStr(e.chunk)
    ensures Terminated(c.buffer) ==> Terminated(r.buffer)
  {
    match e
    case OnData(chunk) => HandleData(c, chunk)
    case OtherHttpEvent => c
  }

  /** All events of one request delivered to the callback in order. */
  function Deliver(c: Capture, evs: seq<HttpEvent>): (r: Capture)
    requires |c.buffer| == BufSize
    ensures |r.buffer| == BufSize
    ensures WellFormed(c) ==> WellFormed(r)
    decreases |evs|
  {
    if |evs| == 0 then c
    else Deliver(HandleHttp(c, evs[0]), evs[1..])
  }

  /** The last chunk of a request that passes the length test, if any. */
  function LastAccepted(evs: seq<HttpEvent>): Option<seq<byte>>
    decreases |evs|
  {
    if |evs| == 0 then None
    else match LastAccepted(evs[1..])
      case Some(ch) => Some(ch)
      case None =>
        if evs[0].OnData? && Accepted(evs[0].chunk) then Some(evs[0].chunk) else None
  }

  /**
   Each accepted chunk overwrites the previous one: after a request the buffer
   holds the string of the last accepted chunk and the flag is up. When no
   chunk is accepted, buffer and flag are exactly as before.
   */
  lemma {:induction false} DeliverKeepsLastChunk(c: Capture, evs: seq<HttpEvent>)
    requires |c.buffer| == BufSize
    ensures LastAccepted(evs).None? ==> Deliver(c, evs) == c
    ensures LastAccepted(evs).Some? ==>
              Deliver(c, evs).received && CStr(Deliver(c, evs).buffer) == CStr(LastAccepted(evs).value)
    decreases |evs|
  {
    if |evs| > 0 {
      var c' := HandleHttp(c, evs[0]);
      DeliverKeepsLastChunk(c', evs[1..]);
    }
  }
}
