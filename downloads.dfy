/** The four streaming download loops: `download_url_to_path` of the 1.0.9 mod manager,
    `download_file` of updater 1.1, of the installer (update.py) and of updater 1.2.
    The HTTP response is given as a status, an optional Content-Length header, the
    chunks the body yields and whether the connection breaks after them; the
    destination file is a buffer the loop appends to. */
module Downloads {

  import opened Common
  import opened Text

  /** What the server sends. `broken` means that reading on after the last chunk fails
      instead of reporting the end of the body. */
  datatype Response = Response(status: int, contentLength: Option<string>, chunks: seq<Bytes>, broken: bool)

  /** Why a download raised. */
  datatype Failure = NoConnection | HttpStatus | BadLength | Broken | CallbackRaised | ZeroDivision

  datatype Outcome = Completed | Raised(why: Failure)

  /** The destination path: `None` while no file exists there. */
  class Destination {
    var file: Option<Bytes>

    constructor (file: Option<Bytes>)
      ensures this.file == file
    {
      this.file := file;
    }
  }

  // ---------------------------------------------------------------- chunk bookkeeping

  /** The chunks read before the first empty one, which `resp.read()` uses to signal the
      end of the body. */
  function UntilEmpty(chunks: seq<Bytes>): (r: seq<Bytes>)
    ensures |r| <= |chunks| && r == chunks[..|r|]
    ensures forall i :: 0 <= i < |r| ==> |r[i]| > 0
    ensures |r| < |chunks| ==> chunks[|r|] == []
  {
    if |chunks| == 0 || chunks[0] == [] then []
    else [chunks[0]] + UntilEmpty(chunks[1..])
  }

  /** The chunks an `if chunk:` filter lets through. */
  function NonEmpty(chunks: seq<Bytes>): (r: seq<Bytes>)
    ensures |r| <= |chunks|
    ensures forall i :: 0 <= i < |r| ==> |r[i]| > 0
  {
    if |chunks| == 0 then []
    else if chunks[|chunks| - 1] == [] then NonEmpty(chunks[..|chunks| - 1])
    else NonEmpty(chunks[..|chunks| - 1]) + [chunks[|chunks| - 1]]
  }

  /** Skipping empty chunks loses no byte. */
  lemma {:induction false} NonEmptyKeepsBytes(chunks: seq<Bytes>)
    ensures Concat(NonEmpty(chunks)) == Concat(chunks)
    decreases |chunks|
  {
    if |chunks| > 0 {
      var init, last := chunks[..|chunks| - 1], chunks[|chunks| - 1];
      assert chunks == init + [last];
      NonEmptyKeepsBytes(init);
      ConcatSnoc(init, last);
      if last != [] {
        ConcatSnoc(NonEmpty(init), last);
      }
    }
  }

  /** The byte counter after each chunk: `downloaded += len(chunk)` seen after every
      step. */
  function RunningTotals(chunks: seq<Bytes>): (r: seq<nat>)
    ensures |r| == |chunks|
    ensures forall i :: 0 <= i < |r| ==> r[i] == TotalLength(chunks[..i + 1])
  {
    if |chunks| == 0 then []
    else
      var init := chunks[..|chunks| - 1];
      var r := RunningTotals(init) + [TotalLength(chunks)];
      forall i | 0 <= i < |init|
        ensures r[i] == TotalLength(chunks[..i + 1])
      {
        assert init[..i + 1] == chunks[..i + 1];
      }
      assert chunks[..|chunks|] == chunks;
      r
  }

  /** The last count reported is the number of bytes in the file. */
  lemma RunningTotalsEnd(chunks: seq<Bytes>)
    requires |chunks| > 0
    ensures RunningTotals(chunks)[|chunks| - 1] == |Concat(chunks)|
  {
    assert chunks[..|chunks|] == chunks;
  }

  /** With no empty chunk the counts strictly increase. */
  lemma RunningTotalsIncrease(chunks: seq<Bytes>, i: nat, j: nat)
    requires forall k :: 0 <= k < |chunks| ==> |chunks[k]| > 0
    requires i < j < |chunks|
    ensures RunningTotals(chunks)[i] < RunningTotals(chunks)[j]
  {
    TotalLengthGrows(chunks[..j + 1], i + 1);
    assert chunks[..j + 1][..i + 1] == chunks[..i + 1];
  }

  /** Adding a non-empty chunk makes the total grow. */
  lemma {:induction false} TotalLengthGrows(chunks: seq<Bytes>, n: nat)
    requires n < |chunks|
    requires forall k :: 0 <= k < |chunks| ==> |chunks[k]| > 0
    ensures TotalLength(chunks[..n]) < TotalLength(chunks)
    decreases |chunks|
  {
    var init := chunks[..|chunks| - 1];
    if n < |init| {
      TotalLengthGrows(init, n);
      assert init[..n] == chunks[..n];
    } else {
      assert init == chunks[..n];
    }
  }

  /** A prefix of the chunks writes a prefix of the bytes. */
  lemma {:induction false} ConcatPrefix(chunks: seq<Bytes>, n: nat)
    requires n <= |chunks|
    ensures Concat(chunks[..n]) <= Concat(chunks)
    decreases |chunks|
  {
    if n < |chunks| {
      var init := chunks[..|chunks| - 1];
      assert chunks[..n] == init[..n];
      ConcatPrefix(init, n);
    } else {
      assert chunks[..n] == chunks;
    }
  }

  // ---------------------------------------------------------------- header and percent

  /** 1.0.9: `int(total) if total and total.isdigit() else None`. */
  function HeaderTotal109(contentLength: Option<string>): (r: Option<nat>)
    ensures r.Some? <==> contentLength.Some? && IsDigits(contentLength.value)
  {
    if contentLength.Some? && contentLength.value != "" && IsDigits(contentLength.value) then
      Some(DigitsValue(contentLength.value))
    else None
  }

  /** `int(r.headers.get('content-length', 0))`: 0 when the header is missing, `None`
      when `int()` rejects it. */
  function HeaderTotal(contentLength: Option<string>): (r: Option<int>)
    ensures contentLength.None? ==> r == Some(0)
    ensures contentLength.Some? && IsDigits(contentLength.value) ==> r == Some(DigitsValue(contentLength.value) as int)
  {
    if contentLength.None? then Some(0)
    else
      if IsDigits(contentLength.value) then PyIntDigits(contentLength.value); PyInt(contentLength.value)
      else PyInt(contentLength.value)
  }

  /** `int()` reads a Content-Length of two digit groups joined by an underscore, as it
      does any base-10 literal. */
  lemma HeaderTotalUnderscore(a: string, b: string)
    requires IsDigits(a) && IsDigits(b)
    ensures HeaderTotal(Some(a + "_" + b)) == Some(DigitsValue(a + b) as int)
  {
    var s := a + "_" + b;
    assert s[|a|] == '_';
    PyIntUnderscore(a, b);
  }

  /** A Content-Length holding a letter, or any character `int()` does not accept inside a
      literal, leaves the total unreadable. */
  lemma HeaderTotalRejectsLetter(h: string, i: int)
    requires 0 <= i < |h| && !IsDigit(h[i]) && !IsSpace(h[i]) && h[i] != '+' && h[i] != '-' && h[i] != '_'
    ensures HeaderTotal(Some(h)).None?
  {
    PyIntRejectsLetter(h, i);
  }

  /** `int(downloaded / total * 100)`, computed exactly and truncated toward zero. */
  function PercentOf(downloaded: int, total: int): int
    requires total != 0
  {
    TruncDiv(downloaded * 100, total)
  }

  /** The installer's progress value: `PercentOf(...) if total else 0`. */
  function Percent(downloaded: int, total: int): (p: int)
    ensures total == 0 ==> p == 0
  {
    if total != 0 then PercentOf(downloaded, total) else 0
  }

  /** Multiplying by the same factor keeps the order. */
  lemma MulMonotone(a: nat, b: nat, t: nat)
    requires a <= b
    ensures a * t <= b * t
  {
  }

  /** Dividing by the same positive number keeps the order. */
  lemma DivMonotone(x: nat, y: nat, t: nat)
    requires t > 0 && x <= y
    ensures x / t <= y / t
  {
    var q1, q2 := x / t, y / t;
    if q1 > q2 {
      MulMonotone(q2 + 1, q1, t);
      assert false;
    }
  }

  /** Below `m` whole multiples of `t`, the quotient is below `m`. */
  lemma DivBelow(x: nat, t: nat, m: nat)
    requires t > 0 && x < m * t
    ensures x / t < m
  {
    var q := x / t;
    if q >= m {
      MulMonotone(m, q, t);
      assert false;
    }
  }

  /** While the received bytes do not exceed the announced total, the percentage stays
      between 0 and 100, and it reaches 100 exactly at the total. */
  lemma PercentInRange(downloaded: nat, total: int)
    requires 0 < total && downloaded <= total
    ensures 0 <= PercentOf(downloaded, total) <= 100
    ensures PercentOf(downloaded, total) == 100 <==> downloaded == total
  {
    MulMonotone(downloaded, total, 100);
    DivMonotone(downloaded * 100, total * 100, total);
    assert (total * 100) / total == 100 by {
      assert total * 100 == 100 * total + 0;
    }
    if downloaded < total {
      MulMonotone(downloaded + 1, total, 100);
      DivBelow(downloaded * 100, total, 100);
    }
  }

  /** A larger count never shows a smaller percentage. */
  lemma PercentMonotone(a: nat, b: nat, total: int)
    requires 0 < total && a <= b
    ensures PercentOf(a, total) <= PercentOf(b, total)
  {
    MulMonotone(a, b, 100);
    DivMonotone(a * 100, b * 100, total);
  }

  /** `PercentOf` applied to every count. */
  function Percents(counts: seq<nat>, total: int): (r: seq<int>)
    requires total != 0
    ensures |r| == |counts|
    ensures forall i :: 0 <= i < |r| ==> r[i] == PercentOf(counts[i], total)
  {
    seq(|counts|, i requires 0 <= i < |counts| => PercentOf(counts[i], total))
  }

  // ---------------------------------------------------------------- 1.0.9

  /** `urllib` raises for any status outside 2xx. */
  predicate UrllibFails(status: int)
  {
    !(200 <= status < 300)
  }

  /** `download_url_to_path` of the 1.0.9 mod manager. It returns false, and writes
      nothing, when no response arrives or the status is not 2xx. Otherwise the file is
      rewritten with the chunks read up to the first empty one; the callback receives
      each running count with the `isdigit`-checked total; an exception raised by the
      callback (`failingCall`, the index of the first call that raises) is swallowed
      (`swallowed`) and the download goes on as if it had returned; the result is false
      only when the connection breaks before the end of the body. */
  method DownloadUrlToPath(resp: Option<Response>, failingCall: Option<nat>, dest: Destination)
    returns (ok: bool, total: Option<nat>, counts: seq<nat>, swallowed: bool)
    modifies dest
    ensures resp.None? || UrllibFails(resp.value.status) ==>
      !ok && !swallowed && dest.file == old(dest.file) && counts == []
    ensures resp.Some? && !UrllibFails(resp.value.status) ==>
      var got := UntilEmpty(resp.value.chunks);
      total == HeaderTotal109(resp.value.contentLength) &&
      dest.file == Some(Concat(got)) &&
      counts == RunningTotals(got) &&
      (swallowed <==> failingCall.Some? && failingCall.value < |got|) &&
      (ok <==> |got| < |resp.value.chunks| || !resp.value.broken)
  {
    if resp.None? || UrllibFails(resp.value.status) {
      return false, None, [], false;
    }
    total := HeaderTotal109(resp.value.contentLength);
    dest.file := Some([]);
    ok, counts, swallowed := ReadUntilEnd(resp.value.chunks, resp.value.broken, failingCall, dest);
  }

  /** The `while True` loop of `download_url_to_path`: read, stop at an empty chunk,
      write, count, report. A read past the given chunks ends the body or, on a broken
      connection, raises. A report that raises is caught and changes nothing else. */
  method ReadUntilEnd(chunks: seq<Bytes>, broken: bool, failingCall: Option<nat>, dest: Destination)
    returns (ok: bool, counts: seq<nat>, swallowed: bool)
    requires dest.file == Some([])
    modifies dest
    ensures var got := UntilEmpty(chunks);
      dest.file == Some(Concat(got)) && counts == RunningTotals(got) &&
      (swallowed <==> failingCall.Some? && failingCall.value < |got|) &&
      (ok <==> |got| < |chunks| || !broken)
  {
    counts := [];
    swallowed := false;
    var downloaded := 0;
    var i := 0;
    while true
      invariant 0 <= i <= |chunks|
      invariant swallowed <==> failingCall.Some? && failingCall.value < i
      invariant i <= |UntilEmpty(chunks)|
      invariant UntilEmpty(chunks)[..i] == chunks[..i]
      invariant dest.file == Some(Concat(chunks[..i]))
      invariant downloaded == TotalLength(chunks[..i])
      invariant counts == RunningTotals(chunks[..i])
      decreases |chunks| - i
    {
      if i == |chunks| {
        UntilEmptyStop(chunks, i);
        assert |UntilEmpty(chunks)| == i;
        if broken {
          return false, counts, swallowed;
        }
        break;
      }
      var chunk := chunks[i];
      if |chunk| == 0 {
        break;
      }
      ReadStep(chunks, i);
      dest.file := Some(dest.file.value + chunk);
      downloaded := downloaded + |chunk|;
      counts := counts + [downloaded];
      if failingCall == Some(i) {
        swallowed := true;
      }
      i := i + 1;
    }
    UntilEmptyStop(chunks, i);
    assert |UntilEmpty(chunks)| == i;
    ok := true;
  }

  /** A non-empty chunk at a position `UntilEmpty` reaches extends it, and what has been
      read grows by that chunk. */
  lemma ReadStep(chunks: seq<Bytes>, i: nat)
    requires i < |chunks| && |chunks[i]| > 0
    requires i <= |UntilEmpty(chunks)| && UntilEmpty(chunks)[..i] == chunks[..i]
    ensures i + 1 <= |UntilEmpty(chunks)| && UntilEmpty(chunks)[..i + 1] == chunks[..i + 1]
    ensures Concat(chunks[..i + 1]) == Concat(chunks[..i]) + chunks[i]
    ensures TotalLength(chunks[..i + 1]) == TotalLength(chunks[..i]) + |chunks[i]|
    ensures RunningTotals(chunks[..i + 1]) == RunningTotals(chunks[..i]) + [TotalLength(chunks[..i + 1])]
  {
    assert chunks[..i + 1] == chunks[..i] + [chunks[i]];
    ConcatSnoc(chunks[..i], chunks[i]);
  }

  /** The loop stops at the first empty chunk or at the end: it has read `UntilEmpty`. */
  lemma UntilEmptyStop(chunks: seq<Bytes>, i: nat)
    requires i <= |chunks| && (i == |chunks| || |chunks[i]| == 0)
    requires i <= |UntilEmpty(chunks)| && UntilEmpty(chunks)[..i] == chunks[..i]
    ensures chunks[..i] == UntilEmpty(chunks)
  {
  }

  // ---------------------------------------------------------------- requests-based loops

  /** `raise_for_status()`: client and server errors raise. */
  predicate RequestsFails(status: int)
  {
    400 <= status < 600
  }

  /** How many callback calls happen before the first one that raises: all of them when
      none raises. */
  function CallsMade(n: nat, failingCall: Option<nat>): (k: nat)
    ensures k <= n
    ensures k < n <==> failingCall.Some? && failingCall.value < n
  {
    if failingCall.Some? && failingCall.value < n then failingCall.value else n
  }

  /** `download_file` of updater 1.1. It raises before opening the file on a missing
      response, an error status or a Content-Length `int()` rejects. Otherwise empty
      chunks are skipped, every other chunk is written and counted, and the callback
      receives the count with the total (0 when the header is missing); a callback that
      raises ends the download right after the chunk it reported. */
  method DownloadFile11(resp: Option<Response>, failingCall: Option<nat>, dest: Destination)
    returns (outcome: Outcome, total: int, counts: seq<nat>)
    modifies dest
    ensures resp.None? ==> outcome == Raised(NoConnection) && dest.file == old(dest.file)
    ensures resp.Some? && RequestsFails(resp.value.status) ==>
      outcome == Raised(HttpStatus) && dest.file == old(dest.file)
    ensures resp.Some? && !RequestsFails(resp.value.status) && HeaderTotal(resp.value.contentLength).None? ==>
      outcome == Raised(BadLength) && dest.file == old(dest.file)
    ensures resp.Some? && !RequestsFails(resp.value.status) && HeaderTotal(resp.value.contentLength).Some? ==>
      var kept := NonEmpty(resp.value.chunks);
      var n := CallsMade(|kept|, failingCall);
      var done := if n < |kept| then n + 1 else n;
      total == HeaderTotal(resp.value.contentLength).value &&
      dest.file == Some(Concat(kept[..done])) &&
      counts == RunningTotals(kept[..done]) &&
      outcome == (if n < |kept| then Raised(CallbackRaised)
                  else if resp.value.broken then Raised(Broken) else Completed)
  {
    if resp.None? {
      return Raised(NoConnection), 0, [];
    }
    var r := resp.value;
    if RequestsFails(r.status) {
      return Raised(HttpStatus), 0, [];
    }
    var t := HeaderTotal(r.contentLength);
    if t.None? {
      return Raised(BadLength), 0, [];
    }
    total := t.value;
    dest.file := Some([]);
    var raised;
    raised, counts := WriteChunks11(NonEmpty(r.chunks), failingCall, dest);
    outcome := if raised then Raised(CallbackRaised) else if r.broken then Raised(Broken) else Completed;
  }

  /** The `for chunk in r.iter_content(...)` loop of updater 1.1 over the non-empty
      chunks: write, count, report; a raising callback ends it. */
  method WriteChunks11(kept: seq<Bytes>, failingCall: Option<nat>, dest: Destination)
    returns (raised: bool, counts: seq<nat>)
    requires dest.file == Some([])
    modifies dest
    ensures var n := CallsMade(|kept|, failingCall);
      var done := if n < |kept| then n + 1 else n;
      dest.file == Some(Concat(kept[..done])) && counts == RunningTotals(kept[..done]) &&
      raised == (n < |kept|)
  {
    counts := [];
    var downloaded := 0;
    var i := 0;
    while i < |kept|
      invariant 0 <= i <= |kept|
      invariant i <= CallsMade(|kept|, failingCall)
      invariant dest.file == Some(Concat(kept[..i]))
      invariant downloaded == TotalLength(kept[..i])
      invariant counts == RunningTotals(kept[..i])
    {
      var chunk := kept[i];
      ConcatSnoc(kept[..i], chunk);
      assert kept[..i + 1] == kept[..i] + [chunk];
      dest.file := Some(dest.file.value + chunk);
      downloaded := downloaded + |chunk|;
      counts := counts + [downloaded];
      if failingCall.Some? && failingCall.value == i {
        return true, counts;
      }
      i := i + 1;
    }
    assert kept[..i] == kept;
    raised := false;
  }

  /** The installer's write loop: each chunk is appended and the progress bar set to the
      percentage of the total downloaded so far. */
  method WriteWithProgress(kept: seq<Bytes>, total: int, dest: Destination) returns (progress: seq<int>)
    requires dest.file == Some([])
    modifies dest
    ensures dest.file == Some(Concat(kept))
    ensures |progress| == |kept|
    ensures forall i :: 0 <= i < |kept| ==> progress[i] == Percent(RunningTotals(kept)[i], total)
  {
    progress := [];
    var downloaded := 0;
    ghost var totals := RunningTotals(kept);
    var i := 0;
    while i < |kept|
      invariant 0 <= i <= |kept|
      invariant dest.file == Some(Concat(kept[..i]))
      invariant downloaded == TotalLength(kept[..i])
      invariant |progress| == i
      invariant forall k :: 0 <= k < i ==> progress[k] == Percent(totals[k], total)
    {
      var chunk := kept[i];
      ConcatSnoc(kept[..i], chunk);
      assert kept[..i + 1] == kept[..i] + [chunk];
      dest.file := Some(dest.file.value + chunk);
      downloaded := downloaded + |chunk|;
      assert totals[i] == downloaded;
      ghost var before := progress;
      progress := progress + [Percent(downloaded, total)];
      assert forall k :: 0 <= k < i ==> progress[k] == before[k];
      i := i + 1;
    }
    assert kept[..i] == kept;
  }

  /** `download_file` of the installer (update.py): the same checks and filter as 1.1,
      without a callback; after each written chunk the progress bar shows the percentage
      of the total, or 0 when the total is 0. */
  method DownloadFileInstaller(resp: Option<Response>, dest: Destination)
    returns (outcome: Outcome, progress: seq<int>)
    modifies dest
    ensures resp.None? ==> outcome == Raised(NoConnection) && dest.file == old(dest.file)
    ensures resp.Some? && RequestsFails(resp.value.status) ==>
      outcome == Raised(HttpStatus) && dest.file == old(dest.file)
    ensures resp.Some? && !RequestsFails(resp.value.status) && HeaderTotal(resp.value.contentLength).None? ==>
      outcome == Raised(BadLength) && dest.file == old(dest.file)
    ensures resp.Some? && !RequestsFails(resp.value.status) && HeaderTotal(resp.value.contentLength).Some? ==>
      var kept := NonEmpty(resp.value.chunks);
      var total := HeaderTotal(resp.value.contentLength).value;
      dest.file == Some(Concat(resp.value.chunks)) &&
      |progress| == |kept| &&
      (forall i :: 0 <= i < |kept| ==> progress[i] == Percent(RunningTotals(kept)[i], total)) &&
      outcome == (if resp.value.broken then Raised(Broken) else Completed)
  {
    progress := [];
    if resp.None? {
      return Raised(NoConnection), progress;
    }
    var r := resp.value;
    if RequestsFails(r.status) {
      return Raised(HttpStatus), progress;
    }
    var t := HeaderTotal(r.contentLength);
    if t.None? {
      return Raised(BadLength), progress;
    }
    var total := t.value;
    var kept := NonEmpty(r.chunks);
    dest.file := Some([]);
    progress := WriteWithProgress(kept, total, dest);
    NonEmptyKeepsBytes(r.chunks);
    outcome := if r.broken then Raised(Broken) else Completed;
  }

  /** `download_file` of updater 1.2. There is no status check, so an error page is
      saved like any body, and no empty-chunk filter. With a callback, each chunk is
      followed by `int(dl / total * 100)`; with the header missing the total is 0 and the
      first callback raises ZeroDivisionError after the first chunk was written. */
  method DownloadFile12(resp: Option<Response>, withCallback: bool, dest: Destination)
    returns (outcome: Outcome, progress: seq<int>)
    modifies dest
    ensures resp.None? ==> outcome == Raised(NoConnection) && dest.file == old(dest.file)
    ensures resp.Some? && HeaderTotal(resp.value.contentLength).None? ==>
      outcome == Raised(BadLength) && dest.file == old(dest.file)
    ensures resp.Some? && HeaderTotal(resp.value.contentLength) == Some(0) && withCallback &&
            |resp.value.chunks| > 0 ==>
      outcome == Raised(ZeroDivision) && dest.file == Some(resp.value.chunks[0]) && progress == []
    ensures resp.Some? && HeaderTotal(resp.value.contentLength).Some? &&
            !(HeaderTotal(resp.value.contentLength) == Some(0) && withCallback && |resp.value.chunks| > 0) ==>
      var chunks := resp.value.chunks;
      var total := HeaderTotal(resp.value.contentLength).value;
      dest.file == Some(Concat(chunks)) &&
      (withCallback && total != 0 ==> progress == Percents(RunningTotals(chunks), total)) &&
      (!(withCallback && total != 0) ==> progress == []) &&
      outcome == (if resp.value.broken then Raised(Broken) else Completed)
  {
    if resp.None? {
      return Raised(NoConnection), [];
    }
    var r := resp.value;
    var t := HeaderTotal(r.contentLength);
    if t.None? {
      return Raised(BadLength), [];
    }
    dest.file := Some([]);
    var zeroDivision;
    zeroDivision, progress := WriteChunks12(r.chunks, withCallback, t.value, dest);
    outcome := if zeroDivision then Raised(ZeroDivision) else if r.broken then Raised(Broken) else Completed;
  }

  /** The `for data in r.iter_content(...)` loop of updater 1.2: every chunk, empty or
      not, is written and counted before the callback computes its percentage. */
  method WriteChunks12(chunks: seq<Bytes>, withCallback: bool, total: int, dest: Destination)
    returns (zeroDivision: bool, progress: seq<int>)
    requires dest.file == Some([])
    modifies dest
    ensures zeroDivision <==> withCallback && total == 0 && |chunks| > 0
    ensures zeroDivision ==> dest.file == Some(chunks[0]) && progress == []
    ensures !zeroDivision ==> dest.file == Some(Concat(chunks))
    ensures withCallback && total != 0 ==> progress == Percents(RunningTotals(chunks), total)
    ensures !(withCallback && total != 0) ==> progress == []
  {
    progress := [];
    var dl := 0;
    var i := 0;
    while i < |chunks|
      invariant 0 <= i <= |chunks|
      invariant dest.file == Some(Concat(chunks[..i]))
      invariant dl == TotalLength(chunks[..i])
      invariant withCallback && i > 0 ==> total != 0
      invariant withCallback && total != 0 ==> |progress| == i
      invariant withCallback && total != 0 ==>
        forall k :: 0 <= k < i ==> progress[k] == PercentOf(RunningTotals(chunks)[k], total)
      invariant !(withCallback && total != 0) ==> progress == []
    {
      var data := chunks[i];
      ConcatSnoc(chunks[..i], data);
      assert chunks[..i + 1] == chunks[..i] + [data];
      dest.file := Some(dest.file.value + data);
      dl := dl + |data|;
      if withCallback {
        if total == 0 {
          assert i == 0 && chunks[..0] == [] && chunks[..1] == [data];
          assert dest.file.value == data;
          return true, progress;
        }
        progress := progress + [PercentOf(dl, total)];
      }
      i := i + 1;
    }
    assert chunks[..i] == chunks;
    zeroDivision := false;
  }
}
