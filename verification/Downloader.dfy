/**
  The resumable download of src-tauri/src/downloader.rs: ranged requests, retries, restarts and an
  append-only partial file.

  The server holds a fixed byte string and answers as sections 14.2, 14.4, 15.3.7 and 15.5.17 of
  RFC 9110 ask. The network is a script: what happens to each request and to each body.
 */
module Downloader {
  import opened Prelude

  const MAX_SEND_RETRIES: nat := 5
  const MAX_STREAM_RESTARTS: nat := 5

  // ----- The server -----

  /** How the server writes `Content-Range` on a 206: left out, `bytes a-b/x` with x a star, or with x the total. */
  datatype RangeTotal = Omitted | Unknown | Known

  type RefusalStatus = s: nat | !(200 <= s < 300) && s != 416 witness 503

  /** What the server decides for one request: send everything, honour the range, reject it, or refuse. */
  datatype Choice = Full | Ranged | Reject | Refuse(status: RefusalStatus)

  datatype Reply = Reply(status: nat, contentLength: Option<nat>, contentRange: Option<Option<nat>>, body: Bytes) {
    predicate IsSuccess() { 200 <= status < 300 }
  }

  /** `rejects` marks a server that may answer 416 to a range it could satisfy, as section 15.5.17 of RFC 9110
      lets it; any other one honours the range then. */
  datatype Server = Server(blob: Bytes, sendsLength: bool, rangeTotal: RangeTotal, rejects: bool) {

    function Length(n: nat): Option<nat> {
      if sendsLength then Some(n) else None
    }

    /** The honest reply to a request; `existing > 0` stands for the header `Range: bytes=existing-`. */
    function Respond(existing: nat, choice: Choice): Reply {
      match choice
      case Refuse(status) => Reply(status, None, None, [])
      case Full => Reply(200, Length(|blob|), None, blob)
      case _ =>
        if existing == 0 then Reply(200, Length(|blob|), None, blob)
        else if existing >= |blob| || (choice.Reject? && rejects) then
          Reply(416, None, if rangeTotal.Known? then Some(Some(|blob|)) else None, [])
        else
          Reply(206, Length(|blob| - existing),
                match rangeTotal
                case Omitted => None
                case Unknown => Some(None)
                case Known => Some(Some(|blob|)),
                blob[existing..])
    }

    /** A 206 from this server shows its part length but not the total. */
    predicate HidesTotal() {
      sendsLength && rangeTotal.Unknown?
    }
  }

  // ----- The network -----

  datatype Chunk = Chunk(size: nat, cancelled: bool)

  datatype Ending = Clean | Stalled | Broken(cancelled: bool)

  /** Fate of one body: its chunk sizes, how it ends, and whether the user has cancelled when a retry is due. */
  datatype Delivery = Delivery(chunks: seq<Chunk>, ending: Ending, cancelledAfter: bool)

  datatype Exchange = SendError(retryable: bool) | Answer(choice: Choice, delivery: Delivery)

  /** Past the end of the script the network is gone. */
  function ExchangeAt(net: seq<Exchange>, k: nat): Exchange {
    if k < |net| then net[k] else SendError(false)
  }

  /** What `stream.next()` yields; running out of items is the clean end of the stream. */
  datatype Item = Data(bytes: Bytes, cancelled: bool) | ReadError(cancelled: bool) | IdleTimeout

  /** The items a body arrives as: its chunks in order, and a clean end only once all of it was sent. */
  function Items(body: Bytes, chunks: seq<Chunk>, ending: Ending): seq<Item> {
    if chunks == [] then
      match ending
      case Clean => if body == [] then [] else [Data(body, false)]
      case Stalled => [IdleTimeout]
      case Broken(cancelled) => [ReadError(cancelled)]
    else
      var n := if chunks[0].size < |body| then chunks[0].size else |body|;
      [Data(body[..n], chunks[0].cancelled)] + Items(body[n..], chunks[1..], ending)
  }

  // ----- The client -----

  datatype Error = SendFailed | NoResponse | HttpStatus(status: nat) | Cancelled | StreamFailed

  datatype Result = Ok | Err(error: Error)

  /** The partial file, the requests sent, the seconds slept, and every content the file ever had. */
  datatype Progress = Progress(file: Option<Bytes>, requests: nat, slept: nat, trail: seq<Option<Bytes>>) {
    function Write(f: Option<Bytes>): Progress {
      this.(file := f, trail := trail + [f])
    }
  }

  function Start(file: Option<Bytes>): Progress {
    Progress(file, 0, 0, [file])
  }

  datatype Outcome = Outcome(result: Result, progress: Progress)

  function Size(file: Option<Bytes>): nat {
    if file.Some? then |file.value| else 0
  }

  function Content(file: Option<Bytes>): Bytes {
    if file.Some? then file.value else []
  }

  /** Two to the power of min(n, 4), in seconds. */
  function Backoff(n: nat): nat {
    if n == 0 then 1 else if n == 1 then 2 else if n == 2 then 4 else if n == 3 then 8 else 16
  }

  datatype Sent = Finished(outcome: Outcome) | Got(reply: Reply, delivery: Delivery, existing: nat, progress: Progress)

  predicate PartialCoversRange(existing: nat, reply: Reply) {
    match reply.contentRange
    case Some(Some(total)) => existing >= total
    case _ => true
  }

  /** The request loop of one pass. */
  function Send(sv: Server, net: seq<Exchange>, p: Progress, existing: nat, attempt: nat): Sent
    decreases MAX_SEND_RETRIES + 1 - attempt
  {
    if attempt > MAX_SEND_RETRIES then Finished(Outcome(Err(NoResponse), p))
    else
      var sent := p.(requests := p.requests + 1);
      match ExchangeAt(net, p.requests)
      case SendError(retryable) =>
        if retryable && attempt < MAX_SEND_RETRIES then
          Send(sv, net, sent.(slept := p.slept + Backoff(attempt)), existing, attempt + 1)
        else Finished(Outcome(Err(SendFailed), sent))
      case Answer(choice, delivery) =>
        var reply := sv.Respond(existing, choice);
        if reply.status == 416 && existing > 0 then
          if PartialCoversRange(existing, reply) then Finished(Outcome(Ok, sent))
          else Send(sv, net, sent.Write(None), 0, attempt + 1)
        else Got(reply, delivery, existing, sent)
  }

  /** The total size the code believes in. */
  function TotalSize(existing: nat, reply: Reply): Option<nat> {
    if reply.status == 206 then
      match reply.contentRange
      case Some(Some(total)) => Some(total)
      case Some(None) => reply.contentLength
      case None => if reply.contentLength.Some? then Some(existing + reply.contentLength.value) else None
    else reply.contentLength
  }

  datatype StreamEnd = Completed | Interrupted | Failed

  /** The read loop: appends each chunk, removes the file on cancellation. */
  function Receive(p: Progress, items: seq<Item>): (Progress, StreamEnd)
    decreases |items|
  {
    if items == [] then (p, Completed)
    else match items[0]
      case IdleTimeout => (p, Failed)
      case ReadError(cancelled) => if cancelled then (p.Write(None), Interrupted) else (p, Failed)
      case Data(bytes, cancelled) =>
        if cancelled then (p.Write(None), Interrupted)
        else Receive(p.Write(Some(Content(p.file) + bytes)), items[1..])
  }

  /** A 200 to a ranged request discards the partial. */
  function AfterStatus(existing: nat, reply: Reply, p: Progress): (Progress, nat) {
    if reply.status != 206 && existing > 0 then (p.Write(None), 0) else (p, existing)
  }

  predicate SkipsDownload(existing: nat, total: Option<nat>) {
    existing > 0 && total.Some? && existing >= total.value
  }

  /** Opening with create and append. */
  function Opened(p: Progress): Progress {
    p.Write(Some(Content(p.file)))
  }

  /** The pass loop, from the pass that follows `restarts` restarts. */
  function Download(sv: Server, net: seq<Exchange>, p: Progress, restarts: nat): Outcome
    requires restarts <= MAX_STREAM_RESTARTS
    decreases MAX_STREAM_RESTARTS - restarts
  {
    match Send(sv, net, p, Size(p.file), 0)
    case Finished(outcome) => outcome
    case Got(reply, delivery, existing, sent) =>
      if !reply.IsSuccess() then Outcome(Err(HttpStatus(reply.status)), sent)
      else
        var (ready, offset) := AfterStatus(existing, reply, sent);
        if SkipsDownload(offset, TotalSize(existing, reply)) then Outcome(Ok, ready)
        else
          var (received, end) := Receive(Opened(ready), Items(reply.body, delivery.chunks, delivery.ending));
          match end
          case Completed => Outcome(Ok, received)
          case Interrupted => Outcome(Err(Cancelled), received)
          case Failed =>
            if delivery.cancelledAfter then Outcome(Err(Cancelled), received.Write(None))
            else if restarts >= MAX_STREAM_RESTARTS then Outcome(Err(StreamFailed), received)
            else Download(sv, net, received.(slept := received.slept + Backoff(restarts + 1)), restarts + 1)
  }

  // ----- The partial file is always a prefix of the object -----

  predicate IsPartial(blob: Bytes, file: Option<Bytes>) {
    file.None? || file.value <= blob
  }

  /** Whatever moment the program dies at, the file it leaves can be resumed. */
  ghost predicate Sound(blob: Bytes, p: Progress) {
    IsPartial(blob, p.file) && forall f :: f in p.trail ==> IsPartial(blob, f)
  }

  lemma {:induction false} ReceiveKeepsPrefix(blob: Bytes, p: Progress, body: Bytes, chunks: seq<Chunk>, ending: Ending)
    requires Sound(blob, p) && p.file.Some? && p.file.value + body == blob
    ensures var (received, end) := Receive(p, Items(body, chunks, ending));
            && Sound(blob, received)
            && (end == Completed ==> received.file == Some(blob))
            && (end == Interrupted ==> received.file == None)
            && (end == Failed ==> received.file.Some? && |p.file.value| <= |received.file.value|)
            && received.requests == p.requests && received.slept == p.slept
    decreases |chunks|
  {
    hide Sound;
    RemovalIsSound(blob, p);
    if chunks == [] {
      CleanDelivery(p, body);
      WriteIsSound(blob, p, body, |body|);
    } else {
      var n := if chunks[0].size < |body| then chunks[0].size else |body|;
      var rest := Items(body[n..], chunks[1..], ending);
      assert Items(body, chunks, ending)[1..] == rest;
      if !chunks[0].cancelled {
        WriteIsSound(blob, p, body, n);
        ReceiveKeepsPrefix(blob, p.Write(Some(p.file.value + body[..n])), body[n..], chunks[1..], ending);
      }
    }
  }

  lemma RemovalIsSound(blob: Bytes, p: Progress)
    requires Sound(blob, p)
    ensures Sound(blob, p.Write(None))
  {
  }

  lemma WriteIsSound(blob: Bytes, p: Progress, body: Bytes, n: nat)
    requires Sound(blob, p) && p.file.Some? && p.file.value + body == blob && n <= |body|
    ensures var p' := p.Write(Some(p.file.value + body[..n]));
            Sound(blob, p') && p'.file.value + body[n..] == blob && (n == |body| ==> p'.file.value == blob)
  {
    assert body[..n] + body[n..] == body;
    assert p.file.value + body[..n] + body[n..] == p.file.value + (body[..n] + body[n..]);
  }

  /** What the request loop hands over: a finished call that is right about the object, or a usable reply. */
  ghost predicate SentSound(sv: Server, sent: Sent) {
    match sent
    case Finished(o) =>
      && Sound(sv.blob, o.progress)
      && (o.result.Ok? && HonestTotals(sv) ==> o.progress.file == Some(sv.blob))
      && o.result != Err(Cancelled)
    case Got(reply, delivery, existing, progress) =>
      && Sound(sv.blob, progress) && existing == Size(progress.file)
      && (reply.IsSuccess() ==> reply == sv.Respond(existing, Full) || reply == sv.Respond(existing, Ranged))
  }

  lemma {:induction false} SendKeepsPrefix(sv: Server, net: seq<Exchange>, p: Progress, attempt: nat)
    requires Sound(sv.blob, p)
    ensures SentSound(sv, Send(sv, net, p, Size(p.file), attempt))
    decreases MAX_SEND_RETRIES + 1 - attempt
  {
    hide Server.Respond, PartialCoversRange, IsPartial, ExchangeAt, Backoff, HonestTotals;
    if attempt <= MAX_SEND_RETRIES {
      var sent := p.(requests := p.requests + 1);
      match ExchangeAt(net, p.requests)
      case SendError(retryable) =>
        if retryable && attempt < MAX_SEND_RETRIES {
          SendKeepsPrefix(sv, net, sent.(slept := p.slept + Backoff(attempt)), attempt + 1);
        }
      case Answer(choice, delivery) =>
        AnswerIsSound(sv, sent, choice, delivery);
        SendKeepsPrefix(sv, net, sent.Write(None), attempt + 1);
    }
  }

  lemma AnswerIsSound(sv: Server, sent: Progress, choice: Choice, delivery: Delivery)
    requires Sound(sv.blob, sent)
    ensures var reply := sv.Respond(Size(sent.file), choice);
            && Sound(sv.blob, sent.Write(None))
            && if reply.status == 416 && Size(sent.file) > 0 then
                 PartialCoversRange(Size(sent.file), reply) ==> SentSound(sv, Finished(Outcome(Ok, sent)))
               else SentSound(sv, Got(reply, delivery, Size(sent.file), sent))
  {
    if sent.file.Some? && |sent.file.value| >= |sv.blob| {
      assert sent.file.value == sv.blob;
    }
  }

  // ----- Exactly when a successful download is complete -----

  /** From this file, no network behaviour makes the call succeed with anything but the whole object. */
  ghost predicate Safe(sv: Server, file: Option<Bytes>) {
    forall net: seq<Exchange> ::
      var o := Download(sv, net, Start(file), 0);
      o.result.Ok? ==> o.progress.file == Some(sv.blob)
  }

  /** The totals this server announces cannot mislead the size check. */
  predicate HonestTotals(sv: Server) {
    |sv.blob| <= 1 || (!sv.HidesTotal() && (sv.rejects ==> sv.rangeTotal.Known?))
  }

  /** What every run keeps: the partial stays a prefix; a cancelled call leaves no file; with honest totals
      success means the whole object. */
  ghost predicate OutcomeSound(sv: Server, o: Outcome) {
    && Sound(sv.blob, o.progress)
    && (o.result == Err(Cancelled) ==> o.progress.file == None)
    && (o.result.Ok? && HonestTotals(sv) ==> o.progress.file == Some(sv.blob))
  }

  lemma {:induction false} DownloadKeepsPrefix(sv: Server, net: seq<Exchange>, p: Progress, restarts: nat)
    requires restarts <= MAX_STREAM_RESTARTS && Sound(sv.blob, p)
    ensures OutcomeSound(sv, Download(sv, net, p, restarts))
    decreases MAX_STREAM_RESTARTS - restarts
  {
    hide Send, Receive, Items;
    SendKeepsPrefix(sv, net, p, 0);
    match Send(sv, net, p, Size(p.file), 0)
    case Finished(_) =>
    case Got(reply, delivery, existing, sent) =>
      if reply.IsSuccess() {
        var (ready, offset) := AfterStatus(existing, reply, sent);
        SuccessIsSound(sv, existing, reply, sent);
        if !SkipsDownload(offset, TotalSize(existing, reply)) {
          var start := Opened(ready);
          ReceiveKeepsPrefix(sv.blob, start, reply.body, delivery.chunks, delivery.ending);
          var (received, end) := Receive(start, Items(reply.body, delivery.chunks, delivery.ending));
          if end == Failed && !delivery.cancelledAfter && restarts < MAX_STREAM_RESTARTS {
            DownloadKeepsPrefix(sv, net, received.(slept := received.slept + Backoff(restarts + 1)), restarts + 1);
          }
        }
      }
  }

  /** A usable reply continues the partial exactly; only a hidden total makes the size check stop early. */
  lemma SuccessIsSound(sv: Server, existing: nat, reply: Reply, sent: Progress)
    requires Sound(sv.blob, sent) && existing == Size(sent.file)
    requires reply == sv.Respond(existing, Full) || reply == sv.Respond(existing, Ranged)
    requires reply.IsSuccess()
    ensures var (ready, offset) := AfterStatus(existing, reply, sent);
            && Sound(sv.blob, ready)
            && Content(ready.file) + reply.body == sv.blob
            && Sound(sv.blob, Opened(ready))
            && (SkipsDownload(offset, TotalSize(existing, reply)) ==> !HonestTotals(sv))
  {
    if sent.file.Some? && existing <= |sv.blob| {
      assert sent.file.value == sv.blob[..existing];
      assert sv.blob[..existing] + sv.blob[existing..] == sv.blob;
    }
  }

  /** A foreign partial is completed or kept as it is, never noticed. */
  lemma ForeignPartialIsAccepted(sv: Server, file: Option<Bytes>)
    requires !IsPartial(sv.blob, file)
    ensures !Safe(sv, file)
  {
    var net := [Answer(Ranged, Delivery([], Clean, false))];
    var p, f := Start(file), file.value;
    var reply := sv.Respond(|f|, Ranged);
    if |f| < |sv.blob| {
      assert sv.blob[..|f|] + sv.blob[|f|..] == sv.blob;
      assert (f + sv.blob[|f|..])[..|f|] == f;
      CleanDelivery(Opened(p.(requests := 1)), reply.body);
    }
    assert Download(sv, net, p, 0).result.Ok? && Download(sv, net, p, 0).progress.file != Some(sv.blob);
  }

  lemma CleanDelivery(p: Progress, body: Bytes)
    ensures var (received, end) := Receive(p, Items(body, [], Clean));
            end == Completed && (p.file.Some? ==> received.file == Some(p.file.value + body))
  {
    if body == [] {
      assert p.file.Some? ==> p.file.value + body == p.file.value;
    } else {
      assert Items(body, [], Clean)[1..] == [];
    }
  }

  /** Cut a full reply one byte short; the resumed range then looks complete already, for the length of its rest
      is taken for the total, or for its rejection names no total. */
  lemma HiddenTotalStopsEarly(sv: Server, file: Option<Bytes>)
    requires !HonestTotals(sv)
    ensures !Safe(sv, file)
  {
    var n := |sv.blob| - 1;
    var cut := Delivery([Chunk(n, false)], Stalled, false);
    var net := [Answer(Full, cut), Answer(Reject, Delivery([], Clean, false))];
    var p := Start(file);
    var (ready, _) := AfterStatus(Size(file), sv.Respond(Size(file), Full), p.(requests := 1));
    assert Content(ready.file) == [];
    CutDelivery(Opened(ready), sv.blob, n);
    var (received, _) := Receive(Opened(ready), Items(sv.blob, cut.chunks, Stalled));
    assert received.file == Some(sv.blob[..n]) by { assert [] + sv.blob[..n] == sv.blob[..n]; }
    var p1 := received.(slept := received.slept + Backoff(1));
    assert Send(sv, net, p, Size(file), 0) == Got(sv.Respond(Size(file), Full), cut, Size(file), p.(requests := 1));
    assert received.requests == 1;
    assert Download(sv, net, p, 0) == Download(sv, net, p1, 1);
    assert Download(sv, net, p1, 1) == Outcome(Ok, p1.(requests := 2));
  }

  lemma CutDelivery(p: Progress, body: Bytes, n: nat)
    requires n < |body| && p.file.Some?
    ensures Receive(p, Items(body, [Chunk(n, false)], Stalled)) == (p.Write(Some(p.file.value + body[..n])), Failed)
  {
    var items := Items(body, [Chunk(n, false)], Stalled);
    assert [Chunk(n, false)][1..] == [];
    assert Items(body[n..], [], Stalled) == [IdleTimeout];
    assert items == [Data(body[..n], false)] + [IdleTimeout];
    assert items[1..] == [IdleTimeout];
  }

  /** Success always means the whole object if and only if the partial found at the start is a prefix of it, and
      the server neither hides the total of a 206 behind a part length nor rejects ranges without naming it. */
  lemma DownloadIsSafeIff(sv: Server, file: Option<Bytes>)
    ensures Safe(sv, file) <==> IsPartial(sv.blob, file) && HonestTotals(sv)
  {
    if IsPartial(sv.blob, file) && HonestTotals(sv) {
      forall net: seq<Exchange>
        ensures var o := Download(sv, net, Start(file), 0); o.result.Ok? ==> o.progress.file == Some(sv.blob)
      {
        DownloadKeepsPrefix(sv, net, Start(file), 0);
      }
    } else if IsPartial(sv.blob, file) {
      HiddenTotalStopsEarly(sv, file);
    } else {
      ForeignPartialIsAccepted(sv, file);
    }
  }

  // ----- What becomes of a call: byte counts are enough -----

  /** A body is interrupted by the user: at a chunk, at a read error, or before the retry it would need. */
  predicate Cancels(d: Delivery) {
    || (exists i :: 0 <= i < |d.chunks| && d.chunks[i].cancelled)
    || d.ending == Broken(true)
    || (d.ending != Clean && d.cancelledAfter)
  }

  function SumOf(chunks: seq<Chunk>): nat {
    if chunks == [] then 0 else chunks[0].size + SumOf(chunks[1..])
  }

  function Min(a: nat, b: nat): nat {
    if a < b then a else b
  }

  /** Two to the power of n. */
  function Power(n: nat): nat {
    if n == 0 then 1 else 2 * Power(n - 1)
  }

  lemma BackoffIsPower(n: nat)
    ensures Backoff(n) == Power(Min(n, 4))
  {
  }

  /** How a call ends, how long a file it leaves, how many requests it has sent and how long it has slept. */
  datatype Tally = Tally(result: Result, size: Option<nat>, requests: nat, slept: nat)

  /** The call's fate from request `k` on, worked out from the script and the number of bytes on disk alone:
      neither contents nor replies are looked at, nor what the server announces but whether it hides totals. */
  function Fate(sv: Server, net: seq<Exchange>, k: nat, attempt: nat, restarts: nat, size: Option<nat>,
                slept: nat): Tally
    decreases |net| - k, 1
  {
    match ExchangeAt(net, k)
    case SendError(retryable) =>
      if retryable && attempt < 5 then Fate(sv, net, k + 1, attempt + 1, restarts, size, slept + Power(Min(attempt, 4)))
      else Tally(Err(SendFailed), size, k + 1, slept)
    case Answer(choice, d) =>
      var n, have := |sv.blob|, if size.Some? then size.value else 0;
      if choice.Reject? && sv.rejects && have > 0 then
        if !sv.rangeTotal.Known? || have >= n then Tally(Ok, size, k + 1, slept)
        else if attempt < 5 then Fate(sv, net, k + 1, attempt + 1, restarts, None, slept)
        else Tally(Err(NoResponse), None, k + 1, slept)
      else FateOfAnswer(sv, net, k, choice, d, restarts, size, slept)
  }

  function FateOfAnswer(sv: Server, net: seq<Exchange>, k: nat, choice: Choice, d: Delivery, restarts: nat,
                        size: Option<nat>, slept: nat): Tally
    requires k < |net|
    decreases |net| - k, 0
  {
    var n, have := |sv.blob|, if size.Some? then size.value else 0;
    if choice.Refuse? then Tally(Err(HttpStatus(choice.status)), size, k + 1, slept)
    else if !choice.Full? && have > 0 && (have >= n || (sv.HidesTotal() && have >= n - have)) then
      Tally(Ok, size, k + 1, slept)
    else if Cancels(d) then Tally(Err(Cancelled), None, k + 1, slept)
    else if d.ending == Clean then Tally(Ok, Some(n), k + 1, slept)
    else
      var got := Some(Min(n, (if choice.Full? then 0 else have) + SumOf(d.chunks)));
      if restarts >= 5 then Tally(Err(StreamFailed), got, k + 1, slept)
      else Fate(sv, net, k + 1, 0, restarts + 1, got, slept + Power(Min(restarts + 1, 4)))
  }

  function SizeOf(file: Option<Bytes>): Option<nat> {
    match file case Some(bytes) => Some(|bytes|) case None => None
  }

  /** The outcome is the tally, and the file is that many first bytes of the object. */
  ghost predicate Matches(sv: Server, o: Outcome, t: Tally) {
    && o.result == t.result && SizeOf(o.progress.file) == t.size && o.progress.requests == t.requests
    && o.progress.slept == t.slept
    && IsPartial(sv.blob, o.progress.file)
  }

  /** The read loop ended as cancellation and ending ask, with `had` bytes, the chunks' and no more than `n`. */
  ghost predicate Counted(n: nat, had: nat, chunks: seq<Chunk>, ending: Ending, received: Progress, end: StreamEnd) {
    var stopped := (exists i :: 0 <= i < |chunks| && chunks[i].cancelled) || ending == Broken(true);
    && end == (if stopped then Interrupted else if ending == Clean then Completed else Failed)
    && SizeOf(received.file)
       == if stopped then None else if ending == Clean then Some(n) else Some(Min(n, had + SumOf(chunks)))
  }

  /** What the read loop makes of one body, by its chunk sizes and its ending. */
  lemma {:induction false} ReceiveCounts(n: nat, p: Progress, body: Bytes, chunks: seq<Chunk>, ending: Ending)
    requires p.file.Some? && |p.file.value| + |body| == n
    ensures var (received, end) := Receive(p, Items(body, chunks, ending));
            received.requests == p.requests && received.slept == p.slept
            && Counted(n, |p.file.value|, chunks, ending, received, end)
    decreases |chunks|
  {
    if chunks == [] {
      if ending == Clean {
        CleanDelivery(p, body);
      }
    } else {
      hide Counted;
      var k := Min(chunks[0].size, |body|);
      var rest := Items(body[k..], chunks[1..], ending);
      assert Items(body, chunks, ending) == [Data(body[..k], chunks[0].cancelled)] + rest;
      assert Items(body, chunks, ending)[1..] == rest;
      if chunks[0].cancelled {
        CountedStop(n, |p.file.value|, chunks, ending, p.Write(None));
      } else {
        var p' := p.Write(Some(p.file.value + body[..k]));
        ReceiveCounts(n, p', body[k..], chunks[1..], ending);
        var (received, end) := Receive(p', rest);
        CountedChunk(n, |p.file.value|, chunks, ending, received, end);
      }
    }
  }

  lemma CountedStop(n: nat, had: nat, chunks: seq<Chunk>, ending: Ending, received: Progress)
    requires chunks != [] && chunks[0].cancelled && received.file == None
    ensures Counted(n, had, chunks, ending, received, Interrupted)
  {
  }

  lemma CountedChunk(n: nat, had: nat, chunks: seq<Chunk>, ending: Ending, received: Progress, end: StreamEnd)
    requires chunks != [] && !chunks[0].cancelled && had <= n
    requires Counted(n, had + Min(chunks[0].size, n - had), chunks[1..], ending, received, end)
    ensures Counted(n, had, chunks, ending, received, end)
  {
    assert chunks == [chunks[0]] + chunks[1..];
  }

  /** What the request loop hands to the pass that is due. */
  ghost predicate SentMatches(sv: Server, net: seq<Exchange>, sent: Sent, restarts: nat, t: Tally) {
    match sent
    case Finished(o) => Matches(sv, o, t)
    case Got(reply, d, existing, p) =>
      && Sound(sv.blob, p) && existing == Size(p.file) && 1 <= p.requests <= |net|
      && exists choice :: reply == sv.Respond(existing, choice)
           && !(reply.status == 416 && existing > 0)
           && t == FateOfAnswer(sv, net, p.requests - 1, choice, d, restarts, SizeOf(p.file), p.slept)
  }

  lemma {:induction false} SendFollowsFate(sv: Server, net: seq<Exchange>, p: Progress, attempt: nat, restarts: nat)
    requires Sound(sv.blob, p) && attempt <= MAX_SEND_RETRIES
    ensures SentMatches(sv, net, Send(sv, net, p, Size(p.file), attempt), restarts,
                        Fate(sv, net, p.requests, attempt, restarts, SizeOf(p.file), p.slept))
    decreases MAX_SEND_RETRIES - attempt
  {
    hide Server.Respond, PartialCoversRange, Backoff, FateOfAnswer, Power;
    BackoffIsPower(attempt);
    var sent := p.(requests := p.requests + 1);
    match ExchangeAt(net, p.requests)
    case SendError(retryable) =>
      if retryable && attempt < MAX_SEND_RETRIES {
        SendFollowsFate(sv, net, sent.(slept := p.slept + Backoff(attempt)), attempt + 1, restarts);
      }
    case Answer(choice, d) =>
      AnswerFollowsFate(sv, net, sent, choice, d, restarts);
      if attempt < MAX_SEND_RETRIES {
        SendFollowsFate(sv, net, sent.Write(None), attempt + 1, restarts);
      }
  }

  lemma AnswerFollowsFate(sv: Server, net: seq<Exchange>, sent: Progress, choice: Choice, d: Delivery, restarts: nat)
    requires Sound(sv.blob, sent) && 1 <= sent.requests <= |net|
    ensures var existing := Size(sent.file);
            var reply := sv.Respond(existing, choice);
            var t := FateOfAnswer(sv, net, sent.requests - 1, choice, d, restarts, SizeOf(sent.file), sent.slept);
            var rejected := choice.Reject? && sv.rejects && existing > 0;
            && Sound(sv.blob, sent.Write(None))
            && Matches(sv, Outcome(Ok, sent), Tally(Ok, SizeOf(sent.file), sent.requests, sent.slept))
            && (rejected ==>
                  && reply.status == 416
                  && (PartialCoversRange(existing, reply)
                      <==> !sv.rangeTotal.Known? || existing >= |sv.blob|))
            && (!rejected ==>
                  if reply.status == 416 && existing > 0 then
                    PartialCoversRange(existing, reply) && Matches(sv, Outcome(Ok, sent), t)
                  else SentMatches(sv, net, Got(reply, d, existing, sent), restarts, t))
  {
    hide Fate, Cancels, SumOf, Power;
  }

  lemma SkipFollowsFate(sv: Server, existing: nat, choice: Choice, sent: Progress)
    requires Sound(sv.blob, sent) && existing == Size(sent.file)
    requires var reply := sv.Respond(existing, choice); !(reply.status == 416 && existing > 0)
    ensures var reply := sv.Respond(existing, choice);
            var (ready, offset) := AfterStatus(existing, reply, sent);
            && (reply.IsSuccess() <==> !choice.Refuse?)
            && (choice.Refuse? ==> reply.status == choice.status)
            && (!choice.Refuse? && !choice.Full? && existing > 0 ==> existing < |sv.blob|)
            && (reply.IsSuccess() ==>
                  && (SkipsDownload(offset, TotalSize(existing, reply))
                      <==> !choice.Full? && existing > 0 && sv.HidesTotal() && existing >= |sv.blob| - existing)
                  && (SkipsDownload(offset, TotalSize(existing, reply)) ==> ready == sent)
                  && |Content(ready.file)| == (if choice.Full? then 0 else existing)
                  && ready.requests == sent.requests && ready.slept == sent.slept)
  {
  }

  /** What is left of a pass once a reply is there, and what the fate makes of the same answer. */
  ghost predicate PassMatches(sv: Server, net: seq<Exchange>, sent: Progress, reply: Reply, d: Delivery, restarts: nat,
                              t: Tally) {
    var existing := Size(sent.file);
    if !reply.IsSuccess() then Matches(sv, Outcome(Err(HttpStatus(reply.status)), sent), t)
    else
      var (ready, offset) := AfterStatus(existing, reply, sent);
      if SkipsDownload(offset, TotalSize(existing, reply)) then Matches(sv, Outcome(Ok, ready), t)
      else
        var (received, end) := Receive(Opened(ready), Items(reply.body, d.chunks, d.ending));
        match end
        case Completed => Matches(sv, Outcome(Ok, received), t)
        case Interrupted => Matches(sv, Outcome(Err(Cancelled), received), t)
        case Failed =>
          if d.cancelledAfter then Matches(sv, Outcome(Err(Cancelled), received.Write(None)), t)
          else if restarts >= MAX_STREAM_RESTARTS then Matches(sv, Outcome(Err(StreamFailed), received), t)
          else
            && Sound(sv.blob, received)
            && t == Fate(sv, net, received.requests, 0, restarts + 1, SizeOf(received.file),
                         received.slept + Power(Min(restarts + 1, 4)))
  }

  lemma PassFollowsFate(sv: Server, net: seq<Exchange>, sent: Progress, choice: Choice, d: Delivery, restarts: nat)
    requires Sound(sv.blob, sent) && 1 <= sent.requests <= |net|
    requires var reply := sv.Respond(Size(sent.file), choice); !(reply.status == 416 && Size(sent.file) > 0)
    ensures PassMatches(sv, net, sent, sv.Respond(Size(sent.file), choice), d, restarts,
                        FateOfAnswer(sv, net, sent.requests - 1, choice, d, restarts, SizeOf(sent.file), sent.slept))
  {
    hide Fate, Receive, Items, Server.Respond, TotalSize, AfterStatus, SkipsDownload, SumOf, Sound, Power;
    var existing := Size(sent.file);
    var reply := sv.Respond(existing, choice);
    SkipFollowsFate(sv, existing, choice, sent);
    SoundIsPartial(sv.blob, sent);
    if !choice.Refuse? {
      var (ready, offset) := AfterStatus(existing, reply, sent);
      SuccessReplies(sv, existing, choice);
      SuccessIsSound(sv, existing, reply, sent);
      if !SkipsDownload(offset, TotalSize(existing, reply)) {
        ReceiveKeepsPrefix(sv.blob, Opened(ready), reply.body, d.chunks, d.ending);
        ReceiveCounts(|sv.blob|, Opened(ready), reply.body, d.chunks, d.ending);
        var (received, end) := Receive(Opened(ready), Items(reply.body, d.chunks, d.ending));
        SoundIsPartial(sv.blob, received);
      }
    }
  }

  lemma SoundIsPartial(blob: Bytes, p: Progress)
    requires Sound(blob, p)
    ensures IsPartial(blob, p.file)
  {
  }

  lemma SleepKeepsSound(blob: Bytes, p: Progress, slept: nat)
    requires Sound(blob, p)
    ensures Sound(blob, p.(slept := slept))
  {
  }

  lemma SuccessReplies(sv: Server, existing: nat, choice: Choice)
    requires !choice.Refuse? && !(sv.Respond(existing, choice).status == 416 && existing > 0)
    ensures var reply := sv.Respond(existing, choice);
            reply == sv.Respond(existing, Full) || reply == sv.Respond(existing, Ranged)
  {
  }

  /** From any prefix of the object, for every server and network: the call ends as its fate says, with that
      many bytes of the object on disk. */
  lemma {:induction false} DownloadFollowsFate(sv: Server, net: seq<Exchange>, p: Progress, restarts: nat)
    requires restarts <= MAX_STREAM_RESTARTS && Sound(sv.blob, p)
    ensures Matches(sv, Download(sv, net, p, restarts), Fate(sv, net, p.requests, 0, restarts, SizeOf(p.file), p.slept))
    decreases MAX_STREAM_RESTARTS - restarts
  {
    hide Send, Receive, Items, Fate, FateOfAnswer, TotalSize, AfterStatus, SkipsDownload, Sound, Server.Respond,
         Matches, Power, Backoff;
    var t := Fate(sv, net, p.requests, 0, restarts, SizeOf(p.file), p.slept);
    SendFollowsFate(sv, net, p, 0, restarts);
    match Send(sv, net, p, Size(p.file), 0)
    case Finished(_) =>
    case Got(reply, d, existing, sent) =>
      var choice :| reply == sv.Respond(existing, choice) && !(reply.status == 416 && existing > 0)
                    && t == FateOfAnswer(sv, net, sent.requests - 1, choice, d, restarts, SizeOf(sent.file),
                                         sent.slept);
      PassFollowsFate(sv, net, sent, choice, d, restarts);
      if reply.IsSuccess() {
        var (ready, offset) := AfterStatus(existing, reply, sent);
        var (received, end) := Receive(Opened(ready), Items(reply.body, d.chunks, d.ending));
        if !SkipsDownload(offset, TotalSize(existing, reply)) && end == Failed && !d.cancelledAfter
           && restarts < MAX_STREAM_RESTARTS {
          BackoffIsPower(restarts + 1);
          SleepKeepsSound(sv.blob, received, received.slept + Backoff(restarts + 1));
          DownloadFollowsFate(sv, net, received.(slept := received.slept + Backoff(restarts + 1)), restarts + 1);
        }
      }
  }

  // ----- When a call succeeds -----

  /** A pass whose first request gets an answer that ends cleanly is the last one, whatever happened before. */
  lemma CleanEndSucceeds(sv: Server, net: seq<Exchange>, p: Progress, restarts: nat, choice: Choice, delivery: Delivery)
    requires restarts <= MAX_STREAM_RESTARTS && Sound(sv.blob, p) && HonestTotals(sv)
    requires ExchangeAt(net, p.requests) == Answer(choice, delivery)
    requires !choice.Refuse? && (choice.Reject? ==> !sv.rejects) && delivery.ending == Clean
    requires forall i :: 0 <= i < |delivery.chunks| ==> !delivery.chunks[i].cancelled
    ensures var o := Download(sv, net, p, restarts);
            o.result == Ok && o.progress.file == Some(sv.blob) && o.progress.requests == p.requests + 1
  {
    hide Download;
    DownloadFollowsFate(sv, net, p, restarts);
    DownloadKeepsPrefix(sv, net, p, restarts);
  }

  /** Nothing refused, nothing cancelled, no hopeless send error. */
  ghost predicate Bearable(net: seq<Exchange>) {
    forall i :: 0 <= i < |net| ==>
      match net[i]
      case SendError(retryable) => retryable
      case Answer(choice, d) => !choice.Refuse? && !Cancels(d)
  }

  /** Requests that lead to no body: send errors and rejected ranges. */
  function LostRequests(net: seq<Exchange>): nat {
    if net == [] then 0
    else (if net[0].SendError? || net[0].choice.Reject? then 1 else 0) + LostRequests(net[1..])
  }

  function BrokenBodies(net: seq<Exchange>): nat {
    if net == [] then 0
    else (if net[0].Answer? && net[0].delivery.ending != Clean then 1 else 0) + BrokenBodies(net[1..])
  }

  /** The last answer is a body that ends cleanly. */
  ghost predicate EndsWell(net: seq<Exchange>) {
    net != [] && var last := net[|net| - 1];
                 last.Answer? && !last.choice.Reject? && last.delivery.ending == Clean
  }

  /** The fate under a bearable script that ends in a clean body, within what retries and restarts are left. */
  lemma {:induction false} FateSucceeds(sv: Server, net: seq<Exchange>, k: nat, attempt: nat, restarts: nat,
                                        size: Option<nat>, slept: nat)
    requires Bearable(net) && k < |net| && EndsWell(net) && HonestTotals(sv)
    requires attempt + LostRequests(net[k..]) <= 5 && restarts + BrokenBodies(net[k..]) <= 5
    ensures Fate(sv, net, k, attempt, restarts, size, slept).result == Ok
    decreases |net| - k
  {
    hide Cancels, SumOf, Power;
    assert net[k..][0] == net[k] && net[k..][1..] == net[k + 1..];
    if k + 1 < |net| {
      match net[k]
      case SendError(_) => FateSucceeds(sv, net, k + 1, attempt + 1, restarts, size, slept + Power(Min(attempt, 4)));
      case Answer(choice, d) =>
        var have := if size.Some? then size.value else 0;
        if choice.Reject? && sv.rejects && have > 0 {
          FateSucceeds(sv, net, k + 1, attempt + 1, restarts, None, slept);
        } else if d.ending != Clean {
          var got := Min(|sv.blob|, (if choice.Full? then 0 else have) + SumOf(d.chunks));
          FateSucceeds(sv, net, k + 1, 0, restarts + 1, Some(got), slept + Power(Min(restarts + 1, 4)));
        }
    }
  }

  /** A call gets through up to five send errors or rejected ranges and five broken bodies, in any order, and then
      completes. */
  lemma PatienceSucceeds(sv: Server, net: seq<Exchange>, file: Option<Bytes>)
    requires IsPartial(sv.blob, file) && HonestTotals(sv)
    requires Bearable(net) && EndsWell(net)
    requires LostRequests(net) <= 5 && BrokenBodies(net) <= 5
    ensures var o := Download(sv, net, Start(file), 0);
            o.result == Ok && o.progress.file == Some(sv.blob)
  {
    hide Download, Fate, LostRequests, BrokenBodies, Bearable;
    assert net[0..] == net;
    FateSucceeds(sv, net, 0, 0, 0, SizeOf(file), 0);
    DownloadFollowsFate(sv, net, Start(file), 0);
    DownloadKeepsPrefix(sv, net, Start(file), 0);
  }

  // ----- Effort -----

  /** Backoff still possible inside one pass from this attempt on: 16 + 8 + 4 + 2 + 1 at most. */
  function SendSleep(attempt: nat): nat
    decreases MAX_SEND_RETRIES - attempt
  {
    if attempt >= MAX_SEND_RETRIES then 0 else Backoff(attempt) + SendSleep(attempt + 1)
  }

  /** Backoff still possible between passes: 2 + 4 + 8 + 16 + 16 at most. */
  function RestartSleep(restarts: nat): nat
    decreases MAX_STREAM_RESTARTS - restarts
  {
    if restarts >= MAX_STREAM_RESTARTS then 0 else Backoff(restarts + 1) + RestartSleep(restarts + 1)
  }

  lemma Budgets()
    ensures SendSleep(0) == 31 && RestartSleep(0) == 46
  {
    assert SendSleep(3) == 24 && RestartSleep(3) == 32;
  }

  function ProgressOf(sent: Sent): Progress {
    match sent
    case Finished(o) => o.progress
    case Got(_, _, _, p) => p
  }

  lemma {:induction false} SendEffort(sv: Server, net: seq<Exchange>, p: Progress, existing: nat, attempt: nat)
    requires attempt <= MAX_SEND_RETRIES + 1
    ensures var q := ProgressOf(Send(sv, net, p, existing, attempt));
            && q.requests <= p.requests + (MAX_SEND_RETRIES + 1 - attempt)
            && q.slept <= p.slept + SendSleep(attempt)
    decreases MAX_SEND_RETRIES + 1 - attempt
  {
    hide Server.Respond, PartialCoversRange, Backoff, ExchangeAt;
    if attempt <= MAX_SEND_RETRIES {
      var sent := p.(requests := p.requests + 1);
      match ExchangeAt(net, p.requests)
      case SendError(retryable) =>
        if retryable && attempt < MAX_SEND_RETRIES {
          SendEffort(sv, net, sent.(slept := p.slept + Backoff(attempt)), existing, attempt + 1);
        }
      case Answer(_, _) =>
        SendEffort(sv, net, sent.Write(None), 0, attempt + 1);
    }
  }

  lemma {:induction false} ReceiveIsFree(p: Progress, items: seq<Item>)
    ensures var q := Receive(p, items).0; q.requests == p.requests && q.slept == p.slept
    decreases |items|
  {
    if items != [] && items[0].Data? {
      ReceiveIsFree(p.Write(Some(Content(p.file) + items[0].bytes)), items[1..]);
    }
  }

  lemma {:induction false} PassesEffort(sv: Server, net: seq<Exchange>, p: Progress, restarts: nat)
    requires restarts <= MAX_STREAM_RESTARTS
    ensures var q := Download(sv, net, p, restarts).progress;
            var passes := MAX_STREAM_RESTARTS + 1 - restarts;
            && q.requests <= p.requests + 6 * passes
            && q.slept <= p.slept + 31 * passes + RestartSleep(restarts)
    decreases MAX_STREAM_RESTARTS - restarts
  {
    hide Send, Receive, Items, SendSleep;
    Budgets();
    SendEffort(sv, net, p, Size(p.file), 0);
    match Send(sv, net, p, Size(p.file), 0)
    case Finished(_) =>
    case Got(reply, delivery, existing, sent) =>
      var (ready, _) := AfterStatus(existing, reply, sent);
      var items := Items(reply.body, delivery.chunks, delivery.ending);
      ReceiveIsFree(Opened(ready), items);
      var (received, end) := Receive(Opened(ready), items);
      if restarts < MAX_STREAM_RESTARTS {
        PassesEffort(sv, net, received.(slept := received.slept + Backoff(restarts + 1)), restarts + 1);
      }
  }

  /** Whatever the network does, a call sends at most 36 requests and asks to sleep at most 232 seconds. */
  lemma DownloadEffort(sv: Server, net: seq<Exchange>, file: Option<Bytes>)
    ensures var q := Download(sv, net, Start(file), 0).progress;
            q.requests <= 36 && q.slept <= 232
  {
    PassesEffort(sv, net, Start(file), 0);
    Budgets();
  }

  /** Five failed requests, then a reply that stalls at once; six times over. */
  function WorstNetwork(): seq<Exchange> {
    seq(36, i => if i % 6 < 5 then SendError(true) else Answer(Full, Delivery([], Stalled, false)))
  }

  lemma WorstExchange(pass: nat, attempt: nat)
    requires pass <= 5 && attempt <= MAX_SEND_RETRIES
    ensures ExchangeAt(WorstNetwork(), 6 * pass + attempt)
            == if attempt < MAX_SEND_RETRIES then SendError(true) else Answer(Full, Delivery([], Stalled, false))
  {
  }

  lemma {:induction false} WorstSend(sv: Server, p: Progress, existing: nat, attempt: nat, restarts: nat)
    requires attempt <= MAX_SEND_RETRIES && restarts <= 5 && p.requests == 6 * restarts + attempt
    ensures Send(sv, WorstNetwork(), p, existing, attempt)
            == Got(sv.Respond(existing, Full), Delivery([], Stalled, false), existing,
                   p.(requests := 6 * restarts + 6, slept := p.slept + SendSleep(attempt)))
    decreases MAX_SEND_RETRIES - attempt
  {
    hide Backoff, WorstNetwork, ExchangeAt;
    WorstExchange(restarts, attempt);
    var sent := p.(requests := p.requests + 1);
    if attempt < MAX_SEND_RETRIES {
      WorstSend(sv, sent.(slept := p.slept + Backoff(attempt)), existing, attempt + 1, restarts);
    }
  }

  lemma {:induction false} WorstPasses(sv: Server, p: Progress, restarts: nat)
    requires restarts <= MAX_STREAM_RESTARTS && p.requests == 6 * restarts
    ensures var q := Download(sv, WorstNetwork(), p, restarts).progress;
            q.requests == 36 && q.slept == p.slept + 31 * (MAX_STREAM_RESTARTS + 1 - restarts) + RestartSleep(restarts)
    decreases MAX_STREAM_RESTARTS - restarts
  {
    hide Send, SendSleep;
    Budgets();
    var existing := Size(p.file);
    WorstSend(sv, p, existing, 0, restarts);
    var reply := sv.Respond(existing, Full);
    var (ready, _) := AfterStatus(existing, reply, p.(requests := p.requests + 6, slept := p.slept + 31));
    assert Items(reply.body, [], Stalled) == [IdleTimeout];
    var received := Receive(Opened(ready), [IdleTimeout]).0;
    if restarts < MAX_STREAM_RESTARTS {
      WorstPasses(sv, received.(slept := received.slept + Backoff(restarts + 1)), restarts + 1);
    }
  }

  /** The bound of `DownloadEffort` is attained. */
  lemma DownloadEffortIsTight(sv: Server, file: Option<Bytes>)
    ensures var q := Download(sv, WorstNetwork(), Start(file), 0).progress;
            q.requests == 36 && q.slept == 232
  {
    hide Download;
    WorstPasses(sv, Start(file), 0);
    Budgets();
  }

  // ----- The code's form -----

  datatype Attempt = Lost(retryable: bool) | Replied(reply: Reply, delivery: Delivery)

  datatype Verdict = Stop(result: Result) | Proceed(reply: Reply, delivery: Delivery, existing: nat)

  function VerdictOf(sent: Sent): Verdict {
    match sent
    case Finished(o) => Stop(o.result)
    case Got(reply, delivery, existing, _) => Proceed(reply, delivery, existing)
  }

  /** One round of the request loop. */
  lemma SendUnfolds(sv: Server, net: seq<Exchange>, p: Progress, existing: nat, attempt: nat)
    ensures var sent := p.(requests := p.requests + 1);
            Send(sv, net, p, existing, attempt)
            == if attempt > MAX_SEND_RETRIES then Finished(Outcome(Err(NoResponse), p))
               else match ExchangeAt(net, p.requests)
                    case SendError(retryable) =>
                      if retryable && attempt < MAX_SEND_RETRIES then
                        Send(sv, net, sent.(slept := p.slept + Backoff(attempt)), existing, attempt + 1)
                      else Finished(Outcome(Err(SendFailed), sent))
                    case Answer(choice, delivery) =>
                      var reply := sv.Respond(existing, choice);
                      if reply.status == 416 && existing > 0 then
                        if PartialCoversRange(existing, reply) then Finished(Outcome(Ok, sent))
                        else Send(sv, net, sent.Write(None), 0, attempt + 1)
                      else Got(reply, delivery, existing, sent)
  {
    hide Server.Respond, PartialCoversRange, Backoff, ExchangeAt;
  }

  /** One round of the pass loop. */
  lemma DownloadUnfolds(sv: Server, net: seq<Exchange>, p: Progress, restarts: nat)
    requires restarts <= MAX_STREAM_RESTARTS
    ensures Download(sv, net, p, restarts)
            == match Send(sv, net, p, Size(p.file), 0)
               case Finished(outcome) => outcome
               case Got(reply, delivery, existing, sent) =>
                 if !reply.IsSuccess() then Outcome(Err(HttpStatus(reply.status)), sent)
                 else
                   var (ready, offset) := AfterStatus(existing, reply, sent);
                   if SkipsDownload(offset, TotalSize(existing, reply)) then Outcome(Ok, ready)
                   else
                     var (received, end) := Receive(Opened(ready), Items(reply.body, delivery.chunks, delivery.ending));
                     match end
                     case Completed => Outcome(Ok, received)
                     case Interrupted => Outcome(Err(Cancelled), received)
                     case Failed =>
                       if delivery.cancelledAfter then Outcome(Err(Cancelled), received.Write(None))
                       else if restarts >= MAX_STREAM_RESTARTS then Outcome(Err(StreamFailed), received)
                       else Download(sv, net, received.(slept := received.slept + Backoff(restarts + 1)), restarts + 1)
  {
    hide Send, Receive, Items, TotalSize, Backoff, AfterStatus;
  }

  /** A client working on one file against one server over one network. */
  class Client {
    const server: Server
    const net: seq<Exchange>
    var file: Option<Bytes>
    var requests: nat
    var slept: nat
    ghost var trail: seq<Option<Bytes>>

    constructor (server: Server, net: seq<Exchange>, file: Option<Bytes>)
      ensures this.server == server && this.net == net && State() == Start(file)
    {
      this.server, this.net, this.file := server, net, file;
      requests, slept, trail := 0, 0, [file];
    }

    ghost function State(): Progress
      reads this
    {
      Progress(file, requests, slept, trail)
    }

    method Write(f: Option<Bytes>)
      modifies this`file, this`trail
      ensures State() == old(State()).Write(f)
    {
      file := f;
      trail := trail + [f];
    }

    method SendOne(existing: nat) returns (a: Attempt)
      modifies this`requests
      ensures requests == old(requests) + 1
      ensures a == match ExchangeAt(net, old(requests))
                   case SendError(retryable) => Lost(retryable)
                   case Answer(choice, delivery) => Replied(server.Respond(existing, choice), delivery)
    {
      var exchange := ExchangeAt(net, requests);
      requests := requests + 1;
      match exchange
      case SendError(retryable) => a := Lost(retryable);
      case Answer(choice, delivery) => a := Replied(server.Respond(existing, choice), delivery);
    }

    /** The retry loop around one request. */
    method SendRequest() returns (v: Verdict)
      modifies this
      ensures v == VerdictOf(Send(server, net, old(State()), Size(old(file)), 0))
      ensures State() == ProgressOf(Send(server, net, old(State()), Size(old(file)), 0))
    {
      hide Server.Respond, ExchangeAt, PartialCoversRange, Backoff, Send;
      var existing := Size(file);
      var attempt := 0;
      while attempt <= MAX_SEND_RETRIES
        invariant attempt <= MAX_SEND_RETRIES + 1
        invariant Send(server, net, State(), existing, attempt) == Send(server, net, old(State()), Size(old(file)), 0)
      {
        SendUnfolds(server, net, State(), existing, attempt);
        var a := SendOne(existing);
        match a {
          case Replied(reply, delivery) =>
            if reply.status == 416 && existing > 0 {
              if PartialCoversRange(existing, reply) {
                return Stop(Ok);
              }
              Write(None);
              existing := 0;
            } else {
              return Proceed(reply, delivery, existing);
            }
          case Lost(retryable) =>
            if retryable && attempt < MAX_SEND_RETRIES {
              slept := slept + Backoff(attempt);
            } else {
              return Stop(Err(SendFailed));
            }
        }
        attempt := attempt + 1;
      }
      SendUnfolds(server, net, State(), existing, attempt);
      v := Stop(Err(NoResponse));
    }

    /** The read loop over one body. */
    method ReadBody(items: seq<Item>) returns (end: StreamEnd)
      modifies this`file, this`trail
      ensures (State(), end) == Receive(old(State()), items)
    {
      var i := 0;
      while i < |items|
        invariant i <= |items|
        invariant requests == old(requests) && slept == old(slept)
        invariant Receive(State(), items[i..]) == Receive(old(State()), items)
      {
        match items[i] {
          case IdleTimeout => return Failed;
          case ReadError(cancelled) =>
            if cancelled {
              Write(None);
              return Interrupted;
            }
            return Failed;
          case Data(bytes, cancelled) =>
            if cancelled {
              Write(None);
              return Interrupted;
            }
            Write(Some(Content(file) + bytes));
        }
        assert items[i..][1..] == items[i + 1..];
        i := i + 1;
      }
      end := Completed;
    }

    /** Downloads the object. From a prefix of it, every moment leaves a prefix on disk, and success under
        honest totals means the file is the object. */
    method DownloadBrowser() returns (result: Result)
      requires requests == 0 && slept == 0 && trail == [file]
      modifies this
      ensures Outcome(result, State()) == Download(server, net, old(State()), 0)
      ensures requests <= 36 && slept <= 232
      ensures IsPartial(server.blob, old(file)) ==>
                && (forall f :: f in trail ==> IsPartial(server.blob, f))
                && (result.Ok? && HonestTotals(server) ==> file == Some(server.blob))
                && Matches(server, Outcome(result, State()), Fate(server, net, 0, 0, 0, SizeOf(old(file)), 0))
    {
      hide Send, Receive, Items, TotalSize, Fate, Matches, Download, Server.Respond, Backoff;
      ghost var before := State();
      ghost var whole := Download(server, net, before, 0);
      DownloadEffort(server, net, file);
      if IsPartial(server.blob, file) {
        DownloadKeepsPrefix(server, net, before, 0);
        DownloadFollowsFate(server, net, before, 0);
      }
      var restarts := 0;
      while true
        invariant restarts <= MAX_STREAM_RESTARTS
        invariant Download(server, net, State(), restarts) == whole
        decreases MAX_STREAM_RESTARTS - restarts
      {
        DownloadUnfolds(server, net, State(), restarts);
        var v := SendRequest();
        if v.Stop? {
          return v.result;
        }
        if !v.reply.IsSuccess() {
          return Err(HttpStatus(v.reply.status));
        }
        var totalSize := TotalSize(v.existing, v.reply);
        var existing := v.existing;
        if v.reply.status != 206 && existing > 0 {
          Write(None);
          existing := 0;
        }
        if SkipsDownload(existing, totalSize) {
          return Ok;
        }
        Write(Some(Content(file)));
        var end := ReadBody(Items(v.reply.body, v.delivery.chunks, v.delivery.ending));
        if end == Completed {
          return Ok;
        }
        if end == Interrupted {
          return Err(Cancelled);
        }
        if v.delivery.cancelledAfter {
          Write(None);
          return Err(Cancelled);
        }
        if restarts >= MAX_STREAM_RESTARTS {
          return Err(StreamFailed);
        }
        restarts := restarts + 1;
        slept := slept + Backoff(restarts);
      }
    }
  }
}
