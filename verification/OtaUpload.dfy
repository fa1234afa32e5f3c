/** The upload loop of http_server_OTA_update_handler in main/http_server.c. */
module OtaUpload {
  import opened FirmwareTypes

  const BUFFER: nat := 1024

  /** What the network does at a receive while body bytes remain: deliver up to some number of them
      (0: the peer closed), time out, or break. */
  datatype Network = Deliver(size: nat) | TimedOut | Broken

  datatype Ending = Exhausted | Closed | Timeout | Error

  /** How far the receives get, and why they stop. When the script runs out the network delivers. */
  function Drain(script: seq<Network>, remaining: nat, cap: nat): (r: (nat, Ending))
    requires cap > 0 || remaining == 0
    ensures r.0 <= remaining
    ensures r.0 == remaining <==> r.1 == Exhausted
    decreases remaining
  {
    if remaining == 0 then (0, Exhausted)
    else
      match Head(script)
      case Deliver(size) =>
        var k := Chunk(size, remaining, cap);
        if k == 0 then (0, Closed)
        else var (rest, why) := Drain(Tail(script), remaining - k, cap); (k + rest, why)
      case TimedOut => (0, Timeout)
      case Broken => (0, Error)
  }

  /** How many bytes the next receive brings. */
  function NextLen(script: seq<Network>, remaining: nat, cap: nat): (k: nat)
    ensures k <= remaining
  {
    if remaining > 0 && Head(script).Deliver? then Chunk(Head(script).size, remaining, cap) else 0
  }

  lemma DrainStep(script: seq<Network>, remaining: nat, cap: nat)
    requires cap > 0 || remaining == 0
    ensures var (k, (total, why)) := (NextLen(script, remaining, cap), Drain(script, remaining, cap));
      if k > 0 then total >= k && Drain(Tail(script), remaining - k, cap) == (total - k, why)
      else total == 0 && why == if remaining == 0 then Exhausted
                                else match Head(script)
                                     case Deliver(_) => Closed
                                     case TimedOut => Timeout
                                     case Broken => Error
  {
  }

  function Head(script: seq<Network>): Network {
    if script == [] then Deliver(BUFFER) else script[0]
  }

  function Tail(script: seq<Network>): seq<Network> {
    if script == [] then [] else script[1..]
  }

  function Chunk(size: nat, remaining: nat, cap: nat): nat {
    var k := if size < remaining then size else remaining;
    if k < cap then k else cap
  }

  predicate Fair(n: Network) {
    n.Deliver? && n.size > 0
  }

  function Cap(contentLength: nat): nat {
    if contentLength < BUFFER then contentLength else BUFFER
  }

  // ------------------------------------------------------------ the header delimiter

  predicate DelimiterAt(b: Bytes, i: nat) {
    i + 4 <= |b| && b[i] == 13 && b[i + 1] == 10 && b[i + 2] == 13 && b[i + 3] == 10
  }

  /** Where strstr finds the first blank line: before it there is no other and no NUL. */
  ghost predicate IsHeader(b: Bytes, h: nat) {
    && DelimiterAt(b, h)
    && forall j | 0 <= j < h :: !DelimiterAt(b, j) && b[j] != 0
  }

  /** In bytes: a carriage return and a line feed, twice, after anything without a carriage return or NUL. */
  lemma HeaderBytes(before: Bytes, after: Bytes)
    requires 13 !in before && 0 !in before
    ensures IsHeader(before + [13, 10, 13, 10] + after, |before|)
  {
    var b := before + [13, 10, 13, 10] + after;
    assert forall j | 0 <= j < |before| :: b[j] == before[j] && b[j] in before;
  }

  /** Wherever a header is found, the two line ends are there. */
  lemma HeaderIsLineEnds(b: Bytes, h: nat)
    requires IsHeader(b, h)
    ensures h + 4 <= |b| && b[h..h + 4] == [13, 10, 13, 10] && 0 !in b[..h]
  {
  }

  lemma HeaderOfPrefix(b: Bytes, chunk: Bytes, h: nat)
    requires chunk <= b && h + 4 <= |chunk|
    ensures IsHeader(chunk, h) <==> IsHeader(b, h)
  {
  }

  /** strstr on the first chunk; no result when the buffer holds none, or a NUL comes first. */
  method FindHeader(b: Bytes) returns (h: Option<nat>)
    ensures h.Some? ==> IsHeader(b, h.value)
    ensures h.None? ==> forall i: nat :: !IsHeader(b, i)
  {
    var i := 0;
    while i + 4 <= |b|
      invariant i <= |b|
      invariant forall j | 0 <= j < i :: !DelimiterAt(b, j) && b[j] != 0
    {
      if DelimiterAt(b, i) { return Some(i); }
      if b[i] == 0 {
        return None;
      }
      i := i + 1;
    }
    h := None;
  }

  // ------------------------------------------------------------ the loop

  function FirstLen(body: Bytes, script: seq<Network>): nat {
    NextLen(script, |body|, Cap(|body|))
  }

  function Receives(body: Bytes, script: seq<Network>): (r: (nat, Ending))
    ensures r.0 <= |body|
    ensures r.0 == |body| <==> r.1 == Exhausted
    ensures FirstLen(body, script) <= r.0
  {
    DrainStep(script, |body|, Cap(|body|));
    Drain(script, |body|, Cap(|body|))
  }

  class Request {
    const body: Bytes
    var pos: nat
    var script: seq<Network>
    // what is still to come: bytes, and how the receives will end
    ghost var left: nat
    ghost var why: Ending

    ghost predicate Valid()
      reads this
    {
      pos <= |body| && (left, why) == Drain(script, |body| - pos, Cap(|body|))
    }

    constructor (body: Bytes, script: seq<Network>)
      ensures Valid() && this.body == body && pos == 0 && this.script == script
    {
      this.body, this.pos, this.script := body, 0, script;
      left, why := Receives(body, script).0, Receives(body, script).1;
    }

    /** httpd_req_recv: a negative length on failure, 0 once the body is exhausted or the peer closed. */
    method Receive(max: nat) returns (len: int, data: Bytes, timeout: bool)
      requires Valid() && max == Cap(|body|)
      modifies this
      ensures Valid() && why == old(why)
      ensures pos == old(pos) + (if len > 0 then len else 0) && left == old(left) - (pos - old(pos))
      ensures len < 0 ==> left == 0 && why == if timeout then Timeout else Error
      ensures len == 0 ==> left == 0 && (why == Exhausted || why == Closed)
      ensures len >= 0 ==> data == body[old(pos)..pos]
      ensures pos == old(pos) + NextLen(old(script), |body| - old(pos), max)
    {
      timeout, data, len := false, [], 0;
      DrainStep(script, |body| - pos, max);
      if pos == |body| { return; }
      var head := Head(script);
      match head
      case Deliver(size) =>
        len := Chunk(size, |body| - pos, max);
        data := body[pos..pos + len];
        if len > 0 { script := Tail(script); }
        pos, left := pos + len, left - len;
      case TimedOut =>
        len, timeout := -1, true;
      case Broken =>
        len := -2;
    }
  }

  // ------------------------------------------------------------ what an upload does

  /** Undefined: C gives the run no meaning, because the first receive brought no header delimiter,
      or nothing at all, so that the flash handle was never opened. */
  datatype Result = Failed | Undefined | Finished(flashed: bool)

  ghost predicate HeaderArrives(body: Bytes, script: seq<Network>) {
    exists h: nat :: IsHeader(body[..FirstLen(body, script)], h)
  }

  ghost function Outcome(body: Bytes, script: seq<Network>, beginOk: bool, endOk: bool, bootOk: bool): Result {
    if Receives(body, script) == (0, Error) then Failed
    else if !HeaderArrives(body, script) then Undefined
    else if !beginOk || Receives(body, script).1 == Error then Failed
    else Finished(endOk && bootOk)
  }

  /** Where the payload starts. */
  ghost function PayloadStart(body: Bytes, script: seq<Network>): (k: nat)
    requires HeaderArrives(body, script)
    ensures 0 < k <= FirstLen(body, script)
  {
    var h: nat :| IsHeader(body[..FirstLen(body, script)], h);
    h + 4
  }

  /** Every byte handed to esp_ota_write once the flash handle is open. */
  ghost function Flashed(body: Bytes, script: seq<Network>): Bytes
    requires HeaderArrives(body, script)
  {
    body[PayloadStart(body, script)..Receives(body, script).0]
  }

  /** The handler. Flash is every byte handed to esp_ota_write, in order; received is
      content_received, which stays below content_length, so that test never ends the loop. */
  method Upload(req: Request, beginOk: bool, endOk: bool, bootOk: bool)
    returns (r: Result, flash: Bytes, received: int)
    requires req.Valid() && req.pos == 0
    modifies req
    ensures r == Outcome(req.body, old(req.script), beginOk, endOk, bootOk)
    ensures HeaderArrives(req.body, old(req.script)) && beginOk ==>
      && req.pos == Receives(req.body, old(req.script)).0
      && flash == Flashed(req.body, old(req.script))
      && received == |flash| < |req.body|
    ensures !HeaderArrives(req.body, old(req.script)) || !beginOk ==> flash == []
  {
    var contentLength := |req.body|;
    received, flash := 0, [];
    var isReqBodyStarted := false;
    ghost var total, why, firstLen := req.left, req.why, FirstLen(req.body, req.script);
    ghost var arrives := HeaderArrives(req.body, req.script);
    ghost var start := if arrives then PayloadStart(req.body, req.script) else 0;
    var max := Cap(contentLength);
    var again := true;
    while again
      invariant req.Valid() && req.why == why && req.pos + req.left == total
      invariant !isReqBodyStarted ==> req.pos == 0 && flash == []
      invariant !isReqBodyStarted && again ==> received == 0 && req.script == old(req.script)
      invariant !isReqBodyStarted && !again ==> firstLen == 0
      invariant isReqBodyStarted ==>
        && beginOk && arrives
        && 0 < start <= req.pos
        && flash == req.body[start..req.pos]
        && received == |flash|
      invariant !again ==> req.left == 0 && why != Error
      decreases req.left, again
    {
      var len, data, timeout := req.Receive(max);
      if len < 0 {
        if timeout {
          // "continue" in a do-while loop goes to the loop condition, which fails
          again := len > 0 && received < contentLength;
          continue;
        }
        return Failed, flash, received;
      }
      if !isReqBodyStarted {
        isReqBodyStarted := true;
        var h := FirstPart(req.body, old(req.script), data);
        if h.None? {
          return Undefined, flash, received;
        }
        var bodyPartLen := len - (h.value + 4);
        if !beginOk {
          return Failed, flash, received;
        }
        assert data[start..] == req.body[start..req.pos];
        flash := flash + data[h.value + 4..];
        received := received + bodyPartLen;
      } else {
        assert req.body[start..req.pos] == flash + data;
        flash := flash + data;
        received := received + len;
      }
      again := len > 0 && received < contentLength;
    }
    if !isReqBodyStarted {
      return Undefined, flash, received;
    }
    r := Finished(endOk && bootOk);
  }

  method FirstPart(body: Bytes, ghost script: seq<Network>, data: Bytes) returns (h: Option<nat>)
    requires data == body[..FirstLen(body, script)]
    ensures h.Some? <==> HeaderArrives(body, script)
    ensures h.Some? ==>
      h.value + 4 == PayloadStart(body, script)
  {
    h := FindHeader(data);
    if h.Some? { HeaderFound(body, script, h.value); }
  }

  lemma HeaderFound(body: Bytes, script: seq<Network>, h: nat)
    requires IsHeader(body[..FirstLen(body, script)], h)
    ensures HeaderArrives(body, script) && PayloadStart(body, script) == h + 4
  {
  }

  // ------------------------------------------------------------ independence of the chunking

  /** The receives before the first one that brings nothing. */
  function FairPrefix(script: seq<Network>): seq<Network> {
    if script == [] || !Fair(script[0]) then [] else [script[0]] + FairPrefix(script[1..])
  }

  /** What fair receives bring together, each at most cap bytes, from a body that does not end. */
  function Volume(fair: seq<Network>, cap: nat): nat {
    if fair == [] then 0
    else (if fair[0].Deliver? then Min(fair[0].size, cap) else 0) + Volume(fair[1..], cap)
  }

  /** A script the network honours to the end, or one whose fair start is already enough. */
  predicate BringsAll(script: seq<Network>, remaining: nat, cap: nat) {
    (forall n | n in script :: Fair(n)) || Volume(FairPrefix(script), cap) >= remaining
  }

  function Blame(n: Network): Ending {
    match n
    case Deliver(_) => Closed
    case TimedOut => Timeout
    case Broken => Error
  }

  lemma FairFirst(script: seq<Network>, cap: nat)
    requires script != [] && Fair(script[0])
    ensures var rest := script[1..];
      && FairPrefix(script) == [script[0]] + FairPrefix(rest)
      && Volume(FairPrefix(script), cap) == Min(script[0].size, cap) + Volume(FairPrefix(rest), cap)
      && ((forall n | n in script :: Fair(n)) <==> forall n | n in rest :: Fair(n))
  {
    assert script == [script[0]] + script[1..];
    assert FairPrefix(script)[1..] == FairPrefix(script[1..]);
  }

  /** How far the receives get is a sum over the script, and what stops them is its first unfair entry. */
  lemma {:induction false} DrainSums(script: seq<Network>, remaining: nat, cap: nat)
    requires cap > 0 || remaining == 0
    ensures var fair := FairPrefix(script);
      if BringsAll(script, remaining, cap) then Drain(script, remaining, cap) == (remaining, Exhausted)
      else |fair| < |script| && Drain(script, remaining, cap) == (Volume(fair, cap), Blame(script[|fair|]))
    decreases remaining
  {
    if remaining > 0 {
      if script == [] {
        DrainSums(script, remaining - Chunk(BUFFER, remaining, cap), cap);
      } else if Fair(script[0]) {
        FairFirst(script, cap);
        DrainSums(script[1..], remaining - Chunk(script[0].size, remaining, cap), cap);
      }
    }
  }

  /** For every way the network splits the body, with the header in the first receive: flash gets what
      follows the header, up to the volume of the fair receives, and all of it exactly when every
      receive is fair or that volume covers the body. */
  lemma FlashedIsPayload(body: Bytes, script: seq<Network>, h: nat)
    requires IsHeader(body, h) && h + 4 <= FirstLen(body, script)
    ensures var (volume, cap) := (Volume(FairPrefix(script), Cap(|body|)), Cap(|body|));
      && HeaderArrives(body, script)
      && h + 4 <= (if BringsAll(script, |body|, cap) then |body| else volume) <= |body|
      && Flashed(body, script) == body[h + 4..if BringsAll(script, |body|, cap) then |body| else volume]
      && (Flashed(body, script) == body[h + 4..] <==> (forall n | n in script :: Fair(n)) || volume >= |body|)
  {
    HeaderOfPrefix(body, body[..FirstLen(body, script)], h);
    HeaderFound(body, script, h);
    DrainSums(script, |body|, Cap(|body|));
  }

  /** Two fair splittings of one body flash the same bytes: all that follows the header. */
  lemma ChunkingIndependent(body: Bytes, a: seq<Network>, b: seq<Network>, h: nat)
    requires IsHeader(body, h) && h + 4 <= FirstLen(body, a) && h + 4 <= FirstLen(body, b)
    requires (forall n | n in a :: Fair(n)) && (forall n | n in b :: Fair(n))
    ensures HeaderArrives(body, a) && HeaderArrives(body, b)
    ensures Flashed(body, a) == Flashed(body, b) == body[h + 4..]
    ensures forall endOk, bootOk :: Outcome(body, a, true, endOk, bootOk) == Finished(endOk && bootOk)
  {
    DrainSums(a, |body|, Cap(|body|));
    FlashedIsPayload(body, a, h);
    FlashedIsPayload(body, b, h);
  }

  lemma {:induction false} FairPrefixStops(fair: seq<Network>, n: Network, rest: seq<Network>)
    requires (forall m | m in fair :: Fair(m)) && !Fair(n)
    ensures FairPrefix(fair + [n] + rest) == fair
  {
    if fair != [] {
      assert Fair(fair[0]);
      assert (fair + [n] + rest)[1..] == fair[1..] + [n] + rest;
      assert forall m | m in fair[1..] :: m in fair;
      FairPrefixStops(fair[1..], n, rest);
    }
  }

  /** A timeout after fair receives ends the upload there: the receives brought the sum of their sizes,
      flash holds that much of the payload, and the handler goes on to end the update all the same. */
  lemma TimeoutTruncates(body: Bytes, fair: seq<Network>, rest: seq<Network>, h: nat, endOk: bool, bootOk: bool)
    requires fair != [] && forall n | n in fair :: Fair(n)
    requires IsHeader(body, h) && h + 4 <= FirstLen(body, fair)
    ensures var script := fair + [TimedOut] + rest; var brought := Min(|body|, Volume(fair, Cap(|body|)));
      && Receives(body, script) == (brought, if brought == |body| then Exhausted else Timeout)
      && HeaderArrives(body, script) && h + 4 <= brought
      && Flashed(body, script) == body[h + 4..brought]
      && (Flashed(body, script) == body[h + 4..] <==> Volume(fair, Cap(|body|)) >= |body|)
      && Outcome(body, script, true, endOk, bootOk) == Finished(endOk && bootOk)
  {
    var script := fair + [TimedOut] + rest;
    assert Head(script) == Head(fair);
    FairPrefixStops(fair, TimedOut, rest);
    assert script[|fair|] == TimedOut && TimedOut in script;
    DrainSums(script, |body|, Cap(|body|));
    FlashedIsPayload(body, script, h);
  }

  /** The first receive asks for at most 1024 bytes. */
  lemma FirstChunk(body: Bytes, size: nat, rest: seq<Network>)
    ensures FirstLen(body, [Deliver(size)] + rest) == Min(size, Min(|body|, 1024))
    ensures FirstLen(body, []) == Min(|body|, 1024)
  {
  }

  /** How an upload whose header arrives ends, from the script and the OTA calls alone: it fails if the
      begin call fails, or if the first receive that brings nothing is a broken one and the body is not
      complete by then; every other ending goes on to finish the update. */
  lemma UploadEndsExactly(body: Bytes, script: seq<Network>, h: nat, beginOk: bool, endOk: bool, bootOk: bool)
    requires IsHeader(body, h) && h + 4 <= FirstLen(body, script)
    ensures var fair := FairPrefix(script);
      var broken := |fair| < |script| && script[|fair|] == Broken && Volume(fair, Cap(|body|)) < |body|;
      Outcome(body, script, beginOk, endOk, bootOk) == if !beginOk || broken then Failed else Finished(endOk && bootOk)
  {
    FlashedIsPayload(body, script, h);
    DrainSums(script, |body|, Cap(|body|));
    UnfairAt(script);
  }

  lemma {:induction false} UnfairAt(script: seq<Network>)
    ensures var fair := FairPrefix(script);
      && fair <= script && (forall n | n in fair :: Fair(n))
      && (if |fair| < |script| then !Fair(script[|fair|]) && script[|fair|] in script else fair == script)
  {
    if script != [] && Fair(script[0]) {
      UnfairAt(script[1..]);
    }
  }

  /** A receive that breaks, or whose peer closes, after fair ones that did not complete the body: the first
      fails the upload, the second finishes the update with a truncated image. */
  lemma BreakAndCloseDiffer(body: Bytes, fair: seq<Network>, rest: seq<Network>, h: nat, endOk: bool, bootOk: bool)
    requires fair != [] && forall n | n in fair :: Fair(n)
    requires IsHeader(body, h) && h + 4 <= FirstLen(body, fair) && Volume(fair, Cap(|body|)) < |body|
    ensures Outcome(body, fair + [Broken] + rest, true, endOk, bootOk) == Failed
    ensures Outcome(body, fair + [Deliver(0)] + rest, true, endOk, bootOk) == Finished(endOk && bootOk)
  {
    FairPrefixStops(fair, Broken, rest);
    FairPrefixStops(fair, Deliver(0), rest);
    assert Head(fair + [Broken] + rest) == Head(fair + [Deliver(0)] + rest) == Head(fair);
    UploadEndsExactly(body, fair + [Broken] + rest, h, true, endOk, bootOk);
    UploadEndsExactly(body, fair + [Deliver(0)] + rest, h, true, endOk, bootOk);
  }

  /** What an upload comes to if its very first receive brings nothing. */
  lemma NothingReceived(body: Bytes, first: Network, rest: seq<Network>, beginOk: bool, endOk: bool, bootOk: bool)
    requires body != [] && !Fair(first)
    ensures Outcome(body, [first] + rest, beginOk, endOk, bootOk) == if first == Broken then Failed else Undefined
  {
    assert Head([first] + rest) == first;
  }
}
