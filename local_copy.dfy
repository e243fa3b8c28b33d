/**
 * `copy_file_with_progress` from the local script: a zero-byte file goes
 * through `shutil.copy2`; anything else is streamed in 8192-byte chunks
 * from the source into a freshly opened destination, with a progress update
 * after every chunk. Failures are inputs: `readable == false` makes opening
 * the source raise (the destination is then never opened), and
 * `fault == Some(k)` makes the k-th data write raise (counting from 0; on the
 * zero-byte path the `copy2` call is write 0). The script turns either into
 * `return False`.
 */
module LocalCopy {
  import opened Wrappers
  import opened Fingerprint

  /** Cells in the progress bar. */
  const BarLength: nat := 40

  /** The two ways through `copy_file_with_progress`. */
  datatype Route = Copy2 | Streamed

  /** One progress update: bytes copied so far and the bar's filled cells
      (`int(bar_length * copied // src_size)`). */
  datatype Progress = Progress(copied: nat, filled: nat)

  function Min(a: nat, b: nat): nat {
    if a <= b then a else b
  }

  /** The injected fault hits a write that actually happens. */
  predicate WriteFails(size: nat, fault: Option<nat>) {
    fault.Some? && (if size == 0 then fault.value == 0 else fault.value * ChunkSize < size)
  }

  /** The copy returns `True`. */
  predicate CopySucceeds(size: nat, readable: bool, fault: Option<nat>) {
    readable && !WriteFails(size, fault)
  }

  /** Bytes on the destination when the copy stops: everything, or the
      chunks written before the failing one. */
  function BytesWritten(size: nat, fault: Option<nat>): nat {
    if WriteFails(size, fault) then fault.value * ChunkSize else size
  }

  /** The bar never overflows and is full exactly when the copy is complete. */
  lemma {:induction false} FilledBound(c: nat, n: nat)
    requires 0 < c <= n
    ensures BarLength * c / n <= BarLength
    ensures BarLength * c / n == BarLength <==> c == n
  {
    var q := BarLength * c / n;
    var r := BarLength * c % n;
    assert BarLength * c == q * n + r && 0 <= r < n;
    if q > BarLength {
      assert q * n >= (BarLength + 1) * n by { MulMono(BarLength + 1, q, n); }
      assert false;
    }
    if c == n {
      if q < BarLength {
        assert q * n <= (BarLength - 1) * n by { MulMono(q, BarLength - 1, n); }
        assert false;
      }
    }
  }

  lemma MulMono(a: int, b: int, n: nat)
    requires a <= b
    ensures a * n <= b * n
  {
  }

  /** The updates so far: the j-th follows chunk j, and the bar is within
      bounds and full exactly at the end. */
  predicate ProgressSoFar(progress: seq<Progress>, size: nat) {
    forall j :: 0 <= j < |progress| ==>
      && progress[j].copied == Min((j + 1) * ChunkSize, size)
      && progress[j].filled <= BarLength
      && (progress[j].filled == BarLength <==> progress[j].copied == size)
  }

  /** The next chunk ends `ChunkSize` bytes on, or at the end of the file. */
  lemma NextChunk(k: nat, copied: nat, size: nat)
    requires copied == Min(k * ChunkSize, size) && copied < size
    ensures k * ChunkSize < size
    ensures Min((k + 1) * ChunkSize, size) == if copied + ChunkSize <= size then copied + ChunkSize else size
  {
  }

  /** One more update after chunk `|progress|` keeps the record valid. */
  lemma ExtendProgress(progress: seq<Progress>, size: nat, copied: nat)
    requires ProgressSoFar(progress, size)
    requires copied == Min((|progress| + 1) * ChunkSize, size) && 0 < copied <= size
    ensures ProgressSoFar(progress + [Progress(copied, BarLength * copied / size)], size)
  {
    FilledBound(copied, size);
    var next := progress + [Progress(copied, BarLength * copied / size)];
    assert forall j :: 0 <= j < |progress| ==> next[j] == progress[j];
  }

  /** `copy_file_with_progress` (lines 66-166). `dst` is a buffer of the
      source's size; the destination file the call leaves behind is its
      prefix `dst[..written]` when the source opens (the `'wb'` open
      truncates) and no file at all when it does not; the bytes of `dst`
      past `written` belong to no file. */
  method CopyFileWithProgress(src: array<bv8>, readable: bool, fault: Option<nat>)
    returns (ok: bool, route: Route, dst: array<bv8>, written: nat, progress: seq<Progress>)
    ensures fresh(dst) && dst.Length == src.Length
    ensures route == Copy2 <==> src.Length == 0
    ensures ok <==> CopySucceeds(src.Length, readable, fault)
    ensures written == (if readable then BytesWritten(src.Length, fault) else 0) <= src.Length
    ensures !readable ==> progress == []
    ensures dst[..written] == src[..written]
    // the zero-byte path never reaches the loop and its division
    ensures route == Copy2 ==> progress == []
    // each update follows one full chunk, except the last, which may be short
    ensures ProgressSoFar(progress, src.Length)
    ensures ok && route == Streamed ==> progress != [] && progress[|progress| - 1].copied == src.Length
    ensures !ok && readable && route == Streamed ==> fault.Some? && |progress| == fault.value
  {
    dst := new bv8[src.Length];
    progress := [];
    if src.Length == 0 {
      route := Copy2;
      ok := readable && fault != Some(0);
      written := 0;
      return;
    }
    route := Streamed;
    if !readable {
      ok, written := false, 0;
      return;
    }
    var copied: nat := 0;
    var k: nat := 0;
    while true
      invariant copied == Min(k * ChunkSize, src.Length)
      invariant k == 0 || (k - 1) * ChunkSize < src.Length
      invariant fault.Some? ==> k <= fault.value
      invariant dst[..copied] == src[..copied]
      invariant |progress| == k
      invariant ProgressSoFar(progress, src.Length)
      decreases src.Length - copied
    {
      var end := if copied + ChunkSize <= src.Length then copied + ChunkSize else src.Length;
      if end == copied {
        assert copied == src.Length && !WriteFails(src.Length, fault);
        break;
      }
      NextChunk(k, copied, src.Length);
      if fault == Some(k) {
        assert WriteFails(src.Length, fault) && BytesWritten(src.Length, fault) == copied;
        ok, written := false, copied;
        return;
      }
      forall i | copied <= i < end {
        dst[i] := src[i];
      }
      ExtendProgress(progress, src.Length, end);
      copied := end;
      k := k + 1;
      var filled := BarLength * copied / src.Length;
      progress := progress + [Progress(copied, filled)];
    }
    ok, written := true, copied;
  }
}
