/** `slurp` of cfg.c: a file of declared size `to_read` is read into a
    fresh buffer of `to_read + 1` characters, in as many `read` calls as it
    takes, and terminated by a NUL. Sizes above the cap are refused;
    short reads are tolerated; an end of file before `to_read` bytes only
    shortens the result; a failing `read` fails the whole call.

    `read` is an oracle: the file's content is fixed, the calls are
    described one by one by `calls`, and every call past the end of that
    list delivers all that is asked (or all that is left). */
module Reader {
  import opened Wrappers
  import opened Pam

  /** `CFG_MAX_FILE_SIZE`. */
  const MAX_FILE_SIZE: nat := 4096

  /** One `read` call: it delivers at most `n` bytes, or it fails. */
  datatype Call = Short(n: nat) | Fault

  function Min(a: nat, b: nat): nat {
    if a <= b then a else b
  }

  /** The `i`-th call. */
  function CallAt(calls: seq<Call>, i: nat, want: nat): Call {
    if i < |calls| then calls[i] else Short(want)
  }

  /** How many bytes `read(fd, w, want)` returns as call `i` at file offset
      `w`: -1 on a fault, 0 at the end of the file. */
  function Returned(content: seq<char>, calls: seq<Call>, i: nat, w: nat, want: nat): (r: int)
    requires w <= |content|
    ensures -1 <= r <= want && w + r <= |content|
  {
    match CallAt(calls, i, want)
    case Fault => -1
    case Short(n) => Min(Min(n, want), |content| - w)
  }

  /** The number of bytes the loop of `slurp` ends with, from call `i` at
      offset `w` with `want` bytes still to read; `None` if a `read`
      fails first. */
  function Total(content: seq<char>, calls: seq<Call>, i: nat, w: nat, want: nat): (t: Option<nat>)
    requires w <= |content|
    decreases want
    ensures t.Some? ==> w <= t.value <= w + want && t.value <= |content|
  {
    if want == 0 then Some(w)
    else
      var r := Returned(content, calls, i, w, want);
      if r < 0 then None
      else if r == 0 then Some(w)
      else Total(content, calls, i + 1, w + r, want - r)
  }

  /** What `slurp` yields: an error code, or the bytes placed before the NUL. */
  datatype Slurped = Failed(code: int) | Loaded(bytes: seq<char>)

  function SlurpResult(content: seq<char>, calls: seq<Call>, toRead: nat, mallocFails: bool): Slurped {
    if toRead > MAX_FILE_SIZE then Failed(SERVICE_ERR)
    else if mallocFails then Failed(BUF_ERR)
    else match Total(content, calls, 0, 0, toRead)
      case None => Failed(SYSTEM_ERR)
      case Some(n) => Loaded(content[..n])
  }

  /** One `read(fd, buf + w, want)`: up to `want` bytes of the file, from
      offset `w`, are copied to `buf[w..]`. */
  method ReadCall(buf: array<char>, w: nat, want: nat, content: seq<char>, calls: seq<Call>, i: nat)
    returns (r: int)
    requires w <= |content| && w + want <= buf.Length
    modifies buf
    ensures r == Returned(content, calls, i, w, want)
    ensures forall k :: 0 <= k < buf.Length ==>
              buf[k] == if w <= k < w + r then content[k] else old(buf[k])
  {
    r := Returned(content, calls, i, w, want);
    var j := 0;
    while j < r
      invariant 0 <= j <= if r < 0 then 0 else r
      invariant forall k :: 0 <= k < buf.Length ==>
                  buf[k] == if w <= k < w + j then content[k] else old(buf[k])
    {
      buf[w + j] := content[w + j];
      j := j + 1;
    }
  }

  /** `slurp(fd, to_read, &buffer)`: on success `buffer` is fresh, holds
      `to_read + 1` characters, and starts with the bytes read, then a NUL. */
  method Slurp(content: seq<char>, calls: seq<Call>, toRead: nat, mallocFails: bool)
    returns (r: int, buffer: array?<char>, n: nat)
    ensures n <= |content|
    ensures SlurpResult(content, calls, toRead, mallocFails) ==
              if r == SUCCESS then Loaded(content[..n]) else Failed(r)
    ensures r == SUCCESS ==> buffer != null && fresh(buffer) && buffer.Length == toRead + 1 &&
                             n <= toRead && buffer[..n] == content[..n] && buffer[n] == '\0'
  {
    buffer, n := null, 0;
    if toRead > MAX_FILE_SIZE {
      r := SERVICE_ERR;
      return;
    }
    if mallocFails {
      r := BUF_ERR;
      return;
    }
    var buf := new char[toRead + 1];
    var w: nat, left: nat, i: nat := 0, toRead, 0;
    while left > 0
      invariant w + left == toRead && w <= |content|
      invariant Total(content, calls, i, w, left) == Total(content, calls, 0, 0, toRead)
      invariant forall k :: 0 <= k < w ==> buf[k] == content[k]
    {
      var got := ReadCall(buf, w, left, content, calls, i);
      if got < 0 {
        r := SYSTEM_ERR;
        return;
      }
      if got == 0 {
        break;
      }
      w, left, i := w + got, left - got, i + 1;
    }
    buf[w] := '\0';
    r, buffer, n := SUCCESS, buf, w;
  }

  // ---- what the loop guarantees ---------------------------------------------

  /** Short reads lose nothing: when no call fails and none comes back
      empty before the end of the file, the result is the first `to_read`
      bytes, or the whole file when it ends earlier. */
  lemma {:induction false} TotalComplete(content: seq<char>, calls: seq<Call>, i: nat, w: nat, want: nat)
    requires w <= |content|
    requires forall j :: i <= j < |calls| ==> calls[j].Short? && calls[j].n > 0
    decreases want
    ensures Total(content, calls, i, w, want) == Some(Min(w + want, |content|))
  {
    if want > 0 {
      var r := Returned(content, calls, i, w, want);
      if r > 0 {
        TotalComplete(content, calls, i + 1, w + r, want - r);
      }
    }
  }

  /** A file of at most the cap, read without faults, loads its first
      `to_read` bytes: all of them, or the file cut short when it ends
      early. */
  lemma SlurpComplete(content: seq<char>, calls: seq<Call>, toRead: nat)
    requires toRead <= MAX_FILE_SIZE
    requires forall j :: 0 <= j < |calls| ==> calls[j].Short? && calls[j].n > 0
    ensures SlurpResult(content, calls, toRead, false) == Loaded(content[..Min(toRead, |content|)])
  {
    TotalComplete(content, calls, 0, 0, toRead);
  }

  /** Whatever the calls do, a load that succeeds holds a prefix of the file
      of at most `to_read` bytes. */
  lemma SlurpBounded(content: seq<char>, calls: seq<Call>, toRead: nat, mallocFails: bool)
    requires SlurpResult(content, calls, toRead, mallocFails).Loaded?
    ensures var b := SlurpResult(content, calls, toRead, mallocFails).bytes;
            |b| <= toRead && b <= content
  {
  }

  /** The bytes calls `i` to `j` (exclusive) ask for, when they are short reads. */
  function Requested(calls: seq<Call>, i: nat, j: nat): nat
    requires i <= j <= |calls|
    decreases j - i
  {
    if i == j then 0 else (if calls[i].Short? then calls[i].n else 0) + Requested(calls, i + 1, j)
  }

  /** A fault on any read that is still needed fails the loop: when calls
      `i` to `j - 1` each deliver their whole positive count, bytes are
      still wanted and still in the file, and call `j` fails. */
  lemma {:induction false} TotalFault(content: seq<char>, calls: seq<Call>, i: nat, w: nat, want: nat, j: nat)
    requires w <= |content| && i <= j < |calls| && calls[j] == Fault
    requires forall k :: i <= k < j ==> calls[k].Short? && calls[k].n > 0
    requires Requested(calls, i, j) < want && w + Requested(calls, i, j) <= |content|
    decreases j - i
    ensures Total(content, calls, i, w, want) == None
  {
    if i < j {
      assert Returned(content, calls, i, w, want) == calls[i].n;
      TotalFault(content, calls, i + 1, w + calls[i].n, want - calls[i].n, j);
    }
  }

  /** Only a fault fails the loop: a `None` total has a failing call. */
  lemma {:induction false} TotalNoneFault(content: seq<char>, calls: seq<Call>, i: nat, w: nat, want: nat)
    requires w <= |content| && Total(content, calls, i, w, want) == None
    decreases want
    ensures exists j :: i <= j < |calls| && calls[j] == Fault
  {
    var r := Returned(content, calls, i, w, want);
    if r >= 0 {
      TotalNoneFault(content, calls, i + 1, w + r, want - r);
    } else {
      assert calls[i] == Fault;
    }
  }

  /** `slurp` fails with `PAM_SYSTEM_ERR` exactly when some read the loop
      gets to fails: a failing read after any number of full short reads,
      while bytes are still wanted, fails the load, and a load failing with
      `PAM_SYSTEM_ERR` had a failing read. */
  lemma SlurpFault(content: seq<char>, calls: seq<Call>, toRead: nat, j: nat)
    requires toRead <= MAX_FILE_SIZE && j < |calls| && calls[j] == Fault
    requires forall k :: 0 <= k < j ==> calls[k].Short? && calls[k].n > 0
    requires Requested(calls, 0, j) < toRead && Requested(calls, 0, j) <= |content|
    ensures SlurpResult(content, calls, toRead, false) == Failed(SYSTEM_ERR)
  {
    TotalFault(content, calls, 0, 0, toRead, j);
  }

  /** A load that fails with `PAM_SYSTEM_ERR` had a failing read. */
  lemma SystemErrIsFault(content: seq<char>, calls: seq<Call>, toRead: nat, mallocFails: bool)
    requires SlurpResult(content, calls, toRead, mallocFails) == Failed(SYSTEM_ERR)
    ensures exists j :: 0 <= j < |calls| && calls[j] == Fault
  {
    TotalNoneFault(content, calls, 0, 0, toRead);
  }

  /** The size cap is checked first, then `malloc`, and a fault on the
      first read fails the load. */
  lemma SlurpErrors(content: seq<char>, calls: seq<Call>, toRead: nat, mallocFails: bool)
    ensures toRead > MAX_FILE_SIZE ==> SlurpResult(content, calls, toRead, mallocFails) == Failed(SERVICE_ERR)
    ensures toRead <= MAX_FILE_SIZE && mallocFails ==> SlurpResult(content, calls, toRead, mallocFails) == Failed(BUF_ERR)
    ensures toRead <= MAX_FILE_SIZE && !mallocFails && toRead > 0 && calls != [] && calls[0] == Fault ==>
              SlurpResult(content, calls, toRead, mallocFails) == Failed(SYSTEM_ERR)
  {
  }
}
