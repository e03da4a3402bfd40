/** The catalog page's list of practice boxes: the three transitions that rewrite one box by
    `id` (start, the deferred start completion, stop), the Active/Available counters, and the
    status label and action button shown for each box. */
module Boxes {
  import opened Wrappers
  import Numerals

  datatype Difficulty = Easy | Medium | Hard

  datatype Status = Stopped | Starting | Running

  datatype Box = Box(
    id: int,
    name: string,
    difficulty: Difficulty,
    os: string,
    category: string,
    description: string,
    status: Status,
    timeRemaining: Option<string>,
    ip: Option<string>)

  /** The rental window written on every box that finishes starting. */
  const RentalWindow: string := "4h 0m"

  /** The first three octets of every leased address. */
  const Subnet: string := "10.10.11."

  /** `Math.floor(Math.random() * 200)`: one random draw of a start completion. */
  type Draw = n: nat | n < 200

  /** The draws of one start completion: `draws(i)` is the draw the `map` callback makes for
      the box at index `i`. `Math.random()` is called once per matching box, so boxes sharing
      an id may get different addresses. */
  type Draws = nat -> Draw

  /** The lease fields agree with the status: both present exactly when running. */
  predicate Consistent(b: Box) {
    if b.status == Running then b.ip.Some? && b.timeRemaining.Some?
    else b.ip.None? && b.timeRemaining.None?
  }

  predicate AllConsistent(boxes: seq<Box>) {
    forall i | 0 <= i < |boxes| :: Consistent(boxes[i])
  }

  /** `a` and `b` describe the same catalog entry (they may differ in status and lease). */
  predicate SameEntry(a: Box, b: Box) {
    && a.id == b.id
    && a.name == b.name
    && a.difficulty == b.difficulty
    && a.os == b.os
    && a.category == b.category
    && a.description == b.description
  }

  /** The address leased with last octet `octet`: the subnet, then the octet in decimal as
      the template literal writes it, with no leading zero. */
  function LeaseAddress(octet: nat): (addr: string)
    ensures |addr| > |Subnet|
    ensures addr[..|Subnet|] == Subnet
    ensures Numerals.AllDigits(addr[|Subnet|..], 10) && Numerals.Canonical(addr[|Subnet|..])
  {
    Numerals.ToRadixCanonical(octet, 10);
    var addr := Subnet + Numerals.ToRadix(octet, 10);
    assert addr[|Subnet|..] == Numerals.ToRadix(octet, 10);
    addr
  }

  /** The last octet of a leased address, read back as a decimal number written without
      leading zeros. */
  function LeasedOctet(addr: string): Option<nat> {
    if && |addr| > |Subnet| && addr[..|Subnet|] == Subnet
       && Numerals.AllDigits(addr[|Subnet|..], 10) && Numerals.Canonical(addr[|Subnet|..])
    then Some(Numerals.FromDigits(addr[|Subnet|..], 10))
    else None
  }

  lemma LeaseAddressRoundTrip(octet: nat)
    ensures LeasedOctet(LeaseAddress(octet)) == Some(octet)
  {
    assert LeaseAddress(octet)[|Subnet|..] == Numerals.ToRadix(octet, 10);
    Numerals.FromToRadix(octet, 10);
  }

  /** Conversely, an address that reads back as an octet is exactly the address leased with
      it, so "reads back as `o`" pins the whole address. */
  lemma LeasedOctetInverse(addr: string)
    requires LeasedOctet(addr).Some?
    ensures addr == LeaseAddress(LeasedOctet(addr).value)
  {
    var digits := addr[|Subnet|..];
    Numerals.CanonicalToRadix(digits, 10);
    assert addr == addr[..|Subnet|] + digits;
  }

  /** A rewrite of one box, as each transition spreads it over `{...box}`. */
  datatype Transition = Begin | Finish(octet: nat) | Halt

  function Apply(b: Box, t: Transition): (r: Box)
    ensures SameEntry(b, r)
    ensures Consistent(r)
  {
    match t
    case Begin => b.(status := Starting, timeRemaining := None, ip := None)
    case Finish(octet) => b.(status := Running, timeRemaining := Some(RentalWindow), ip := Some(LeaseAddress(octet)))
    case Halt => b.(status := Stopped, timeRemaining := None, ip := None)
  }

  /** `prev.map(box => box.id === id ? <rewrite> : box)`, where the rewrite of the box at
      index `i` is `rewrite(i)`. */
  function UpdateMatching(boxes: seq<Box>, id: int, rewrite: nat -> Transition): (r: seq<Box>)
    ensures |r| == |boxes|
    ensures forall i | 0 <= i < |boxes| && boxes[i].id != id :: r[i] == boxes[i]
    ensures forall i | 0 <= i < |boxes| && boxes[i].id == id :: r[i] == Apply(boxes[i], rewrite(i))
  {
    seq(|boxes|, i requires 0 <= i < |boxes| =>
      if boxes[i].id == id then Apply(boxes[i], rewrite(i)) else boxes[i])
  }

  /** `startBox(id)`, first phase: the matching boxes become `starting` with no lease. */
  function StartBox(boxes: seq<Box>, id: int): (r: seq<Box>)
    ensures |r| == |boxes|
    ensures forall i | 0 <= i < |boxes| && boxes[i].id != id :: r[i] == boxes[i]
    ensures forall i | 0 <= i < |boxes| && boxes[i].id == id ::
      && SameEntry(boxes[i], r[i])
      && r[i].status == Starting && r[i].timeRemaining == None && r[i].ip == None
  {
    UpdateMatching(boxes, id, _ => Begin)
  }

  /** The last octet the source draws: `Math.floor(Math.random() * 200) + 100`. */
  function OctetAsWritten(n: Draw): (octet: nat)
    ensures 100 <= octet <= 299
  {
    n + 100
  }

  /** The evidently intended last octet: a value in 100..255, equal to the source's own
      whenever the source's is a valid octet. */
  function CorrectedOctet(n: Draw): (octet: nat)
    ensures 100 <= octet <= 255
    ensures n + 100 <= 255 ==> octet == OctetAsWritten(n)
  {
    100 + n % 156
  }

  /** The rewrite of a start completion that leases `octets(i)` to the box at index `i`. */
  function FinishWith(octets: nat -> nat): nat -> Transition {
    (i: nat) => Finish(octets(i))
  }

  /** A completion leasing `octets(i)` to the box at index `i` makes each matching box
      running, with the rental window and an address whose last octet reads back as
      `octets(i)`. */
  lemma FinishWithLeases(boxes: seq<Box>, id: int, octets: nat -> nat)
    ensures forall i | 0 <= i < |boxes| && boxes[i].id == id ::
      var b := UpdateMatching(boxes, id, FinishWith(octets))[i];
      && SameEntry(boxes[i], b)
      && b.status == Running
      && b.timeRemaining == Some("4h 0m")
      && b.ip.Some?
      && LeasedOctet(b.ip.value) == Some(octets(i))
  {
    var r := UpdateMatching(boxes, id, FinishWith(octets));
    forall i | 0 <= i < |boxes| && boxes[i].id == id
      ensures LeasedOctet(r[i].ip.value) == Some(octets(i))
    {
      assert r[i] == Apply(boxes[i], Finish(octets(i)));
      LeaseAddressRoundTrip(octets(i));
    }
  }

  /** The octets the source leases for the given draws: each in 100..299, and above the
      largest byte value exactly for the draws 156 and up. */
  function OctetsAsWritten(draws: Draws): (octets: nat -> nat)
    ensures forall i: nat :: 100 <= octets(i) <= 299 && (octets(i) > 255 <==> draws(i) >= 156)
    ensures forall i: nat :: octets(i) == draws(i) + 100
  {
    var octets := (i: nat) => OctetAsWritten(draws(i));
    assert forall i: nat :: octets(i) == OctetAsWritten(draws(i));
    octets
  }

  /** The corrected octets for the given draws. */
  function CorrectedOctets(draws: Draws): (octets: nat -> nat)
    ensures forall i: nat :: 100 <= octets(i) <= 255
  {
    var octets := (i: nat) => CorrectedOctet(draws(i));
    assert forall i: nat :: octets(i) == CorrectedOctet(draws(i));
    octets
  }

  /** `startBox(id)`, second phase, as written: three seconds later the matching boxes become
      `running` with the fixed window and address `10.10.11.<n + 100>`, `n` drawn afresh for each
      of them, whatever their status is by then. */
  function CompleteStartAsWritten(boxes: seq<Box>, id: int, draws: Draws): (r: seq<Box>)
    ensures |r| == |boxes|
    ensures forall i | 0 <= i < |boxes| && boxes[i].id != id :: r[i] == boxes[i]
    ensures forall i | 0 <= i < |boxes| && boxes[i].id == id ::
      && SameEntry(boxes[i], r[i])
      && r[i].status == Running
      && r[i].timeRemaining == Some("4h 0m")
      && r[i].ip.Some?
      && LeasedOctet(r[i].ip.value) == Some(draws(i) + 100)
  {
    FinishWithLeases(boxes, id, OctetsAsWritten(draws));
    UpdateMatching(boxes, id, FinishWith(OctetsAsWritten(draws)))
  }

  /** The start completion with the corrected octet: every address it leases is a valid
      IPv4 address in 10.10.11.100 through 10.10.11.255. */
  function CompleteStart(boxes: seq<Box>, id: int, draws: Draws): (r: seq<Box>)
    ensures |r| == |boxes|
    ensures forall i | 0 <= i < |boxes| && boxes[i].id != id :: r[i] == boxes[i]
    ensures forall i | 0 <= i < |boxes| && boxes[i].id == id ::
      && SameEntry(boxes[i], r[i])
      && r[i].status == Running
      && r[i].timeRemaining == Some("4h 0m")
      && r[i].ip.Some?
      && LeasedOctet(r[i].ip.value).Some?
      && 100 <= LeasedOctet(r[i].ip.value).value <= 255
  {
    FinishWithLeases(boxes, id, CorrectedOctets(draws));
    UpdateMatching(boxes, id, FinishWith(CorrectedOctets(draws)))
  }

  /** `stopBox(id)`: the matching boxes become `stopped` with no lease. */
  function StopBox(boxes: seq<Box>, id: int): (r: seq<Box>)
    ensures |r| == |boxes|
    ensures forall i | 0 <= i < |boxes| && boxes[i].id != id :: r[i] == boxes[i]
    ensures forall i | 0 <= i < |boxes| && boxes[i].id == id ::
      && SameEntry(boxes[i], r[i])
      && r[i].status == Stopped && r[i].timeRemaining == None && r[i].ip == None
  {
    UpdateMatching(boxes, id, _ => Halt)
  }

  /** Finding: the source can lease `10.10.11.299`, whose last octet is not a byte. */
  lemma AsWrittenOctetExceedsByte()
    ensures OctetAsWritten(199) == 299
    ensures LeasedOctet(LeaseAddress(OctetAsWritten(199))) == Some(299)
  {
    LeaseAddressRoundTrip(299);
  }

  /** Every octet the source draws with `n >= 156` is above 255. */
  lemma AsWrittenOctetRange(n: Draw)
    ensures OctetAsWritten(n) > 255 <==> n >= 156
  {
  }

  /** The completion overwrites the box whatever its prior status: a stop that slips in
      between start and completion is undone by the completion. */
  lemma CompletionIgnoresPriorStatus(boxes: seq<Box>, id: int, draws: Draws)
    ensures CompleteStart(StopBox(boxes, id), id, draws) == CompleteStart(boxes, id, draws)
    ensures CompleteStartAsWritten(StopBox(boxes, id), id, draws) == CompleteStartAsWritten(boxes, id, draws)
  {
  }

  /** Starting and stopping are idempotent. */
  lemma StartStopIdempotent(boxes: seq<Box>, id: int)
    ensures StartBox(StartBox(boxes, id), id) == StartBox(boxes, id)
    ensures StopBox(StopBox(boxes, id), id) == StopBox(boxes, id)
  {
  }

  /** Each transition keeps every box's lease fields consistent with its status. */
  lemma TransitionsPreserveConsistency(boxes: seq<Box>, id: int, draws: Draws)
    requires AllConsistent(boxes)
    ensures AllConsistent(StartBox(boxes, id))
    ensures AllConsistent(CompleteStart(boxes, id, draws))
    ensures AllConsistent(CompleteStartAsWritten(boxes, id, draws))
    ensures AllConsistent(StopBox(boxes, id))
  {
  }

  // ---------------------------------------------------------------- counters

  /** No box has status `s`. */
  predicate NoneWith(boxes: seq<Box>, s: Status) {
    forall i | 0 <= i < |boxes| :: boxes[i].status != s
  }

  /** Every box has status `s`. */
  predicate AllWith(boxes: seq<Box>, s: Status) {
    forall i | 0 <= i < |boxes| :: boxes[i].status == s
  }

  /** `boxes.filter(b => b.status === s).length`: zero exactly when no box has status `s`,
      the whole list exactly when every box has it. */
  function CountStatus(boxes: seq<Box>, s: Status): (c: nat)
    ensures c <= |boxes|
    ensures c == 0 <==> NoneWith(boxes, s)
    ensures c == |boxes| <==> AllWith(boxes, s)
    decreases |boxes|
  {
    if |boxes| == 0 then 0
    else
      var init := boxes[..|boxes| - 1];
      assert forall i | 0 <= i < |init| :: init[i] == boxes[i];
      CountStatus(init, s) + (if boxes[|boxes| - 1].status == s then 1 else 0)
  }

  /** The "Active Boxes" counter: zero exactly when no box is running, the full catalog
      exactly when every box is. */
  function ActiveCount(boxes: seq<Box>): (c: nat)
    ensures c <= |boxes|
    ensures c == 0 <==> NoneWith(boxes, Running)
    ensures c == |boxes| <==> AllWith(boxes, Running)
  {
    CountStatus(boxes, Running)
  }

  /** The "Available" counter: zero exactly when no box is stopped, the full catalog exactly
      when every box is. */
  function AvailableCount(boxes: seq<Box>): (c: nat)
    ensures c <= |boxes|
    ensures c == 0 <==> NoneWith(boxes, Stopped)
    ensures c == |boxes| <==> AllWith(boxes, Stopped)
  {
    CountStatus(boxes, Stopped)
  }

  /** Every box is running, stopped or starting, so the two counters plus the starting boxes
      add up to the list length; starting boxes are in neither counter. */
  lemma {:induction false} CountersPartition(boxes: seq<Box>)
    ensures ActiveCount(boxes) + AvailableCount(boxes) + CountStatus(boxes, Starting) == |boxes|
    ensures ActiveCount(boxes) + AvailableCount(boxes) <= |boxes|
    decreases |boxes|
  {
    if |boxes| > 0 {
      CountersPartition(boxes[..|boxes| - 1]);
    }
  }

  /** Appending a box adds what it contributes to a counter. */
  lemma CountSnoc(init: seq<Box>, x: Box, s: Status)
    ensures CountStatus(init + [x], s) == CountStatus(init, s) + (if x.status == s then 1 else 0)
  {
  }

  /** Replacing one box changes a counter by what the old and new box contribute. */
  lemma {:induction false} CountAfterReplace(boxes: seq<Box>, k: nat, b: Box, s: Status)
    requires k < |boxes|
    ensures CountStatus(boxes[k := b], s) ==
      CountStatus(boxes, s) - (if boxes[k].status == s then 1 else 0) + (if b.status == s then 1 else 0)
    decreases |boxes|
  {
    var last := |boxes| - 1;
    var init := boxes[..last];
    assert boxes == init + [boxes[last]];
    CountSnoc(init, boxes[last], s);
    if k < last {
      CountAfterReplace(init, k, b, s);
      assert boxes[k := b] == init[k := b] + [boxes[last]];
      CountSnoc(init[k := b], boxes[last], s);
    } else {
      assert boxes[k := b] == init + [b];
      CountSnoc(init, b, s);
    }
  }

  /** Ids are unique across the catalog. */
  predicate UniqueIds(boxes: seq<Box>) {
    forall i, j | 0 <= i < |boxes| && 0 <= j < |boxes| && boxes[i].id == boxes[j].id :: i == j
  }

  /** With unique ids, a transition rewrites exactly the box at the id's index. */
  lemma UpdateIsPointwise(boxes: seq<Box>, k: nat, rewrite: nat -> Transition)
    requires UniqueIds(boxes) && k < |boxes|
    ensures UpdateMatching(boxes, boxes[k].id, rewrite) == boxes[k := Apply(boxes[k], rewrite(k))]
  {
  }

  /** With unique ids, starting a stopped box moves it out of Available and into neither
      counter. */
  lemma CountersAfterStart(boxes: seq<Box>, k: nat)
    requires UniqueIds(boxes) && k < |boxes| && boxes[k].status == Stopped
    ensures AvailableCount(StartBox(boxes, boxes[k].id)) == AvailableCount(boxes) - 1
    ensures ActiveCount(StartBox(boxes, boxes[k].id)) == ActiveCount(boxes)
  {
    UpdateIsPointwise(boxes, k, _ => Begin);
    CountAfterReplace(boxes, k, Apply(boxes[k], Begin), Running);
    CountAfterReplace(boxes, k, Apply(boxes[k], Begin), Stopped);
  }

  /** With unique ids, completing a starting box adds it to Active, for the completion as
      written and for the corrected one. */
  lemma CountersAfterCompletion(boxes: seq<Box>, k: nat, draws: Draws)
    requires UniqueIds(boxes) && k < |boxes| && boxes[k].status == Starting
    ensures ActiveCount(CompleteStartAsWritten(boxes, boxes[k].id, draws)) == ActiveCount(boxes) + 1
    ensures AvailableCount(CompleteStartAsWritten(boxes, boxes[k].id, draws)) == AvailableCount(boxes)
    ensures ActiveCount(CompleteStart(boxes, boxes[k].id, draws)) == ActiveCount(boxes) + 1
    ensures AvailableCount(CompleteStart(boxes, boxes[k].id, draws)) == AvailableCount(boxes)
  {
    var written := FinishWith(OctetsAsWritten(draws));
    UpdateIsPointwise(boxes, k, written);
    CountAfterReplace(boxes, k, Apply(boxes[k], written(k)), Running);
    CountAfterReplace(boxes, k, Apply(boxes[k], written(k)), Stopped);
    var corrected := FinishWith(CorrectedOctets(draws));
    UpdateIsPointwise(boxes, k, corrected);
    CountAfterReplace(boxes, k, Apply(boxes[k], corrected(k)), Running);
    CountAfterReplace(boxes, k, Apply(boxes[k], corrected(k)), Stopped);
  }

  /** With unique ids, stopping a running box moves it from Active to Available. */
  lemma CountersAfterStop(boxes: seq<Box>, k: nat)
    requires UniqueIds(boxes) && k < |boxes| && boxes[k].status == Running
    ensures ActiveCount(StopBox(boxes, boxes[k].id)) == ActiveCount(boxes) - 1
    ensures AvailableCount(StopBox(boxes, boxes[k].id)) == AvailableCount(boxes) + 1
  {
    UpdateIsPointwise(boxes, k, _ => Halt);
    CountAfterReplace(boxes, k, Apply(boxes[k], Halt), Running);
    CountAfterReplace(boxes, k, Apply(boxes[k], Halt), Stopped);
  }

  // ---------------------------------------------------------------- presentation

  /** The status as the source spells it. */
  function StatusText(s: Status): string {
    match s
    case Stopped => "stopped"
    case Starting => "starting"
    case Running => "running"
  }

  function UpperCase(c: char): char {
    if 'a' <= c <= 'z' then (c as int - 'a' as int + 'A' as int) as char else c
  }

  function LowerCase(c: char): char {
    if 'A' <= c <= 'Z' then (c as int - 'A' as int + 'a' as int) as char else c
  }

  /** `"Starting..."` for a starting box, otherwise the status with its first letter
      upper-cased (`charAt(0).toUpperCase() + slice(1)`). */
  function StatusLabel(s: Status): (shown: string)
    ensures s == Starting ==> shown == "Starting..."
    ensures s != Starting ==>
      && |shown| == |StatusText(s)|
      && LowerCase(shown[0]) == StatusText(s)[0]
      && 'A' <= shown[0] <= 'Z'
      && shown[1..] == StatusText(s)[1..]
  {
    if s == Starting then "Starting..."
    else
      var text := StatusText(s);
      [UpperCase(text[0])] + text[1..]
  }

  /** Distinct statuses get distinct labels. */
  lemma StatusLabelsDistinct(s: Status, t: Status)
    requires s != t
    ensures StatusLabel(s) != StatusLabel(t)
  {
  }

  /** The button under a box: Start, a disabled "Starting" spinner, or Stop. */
  datatype Button = StartButton | StartingSpinner | StopButton

  function OfferedButton(s: Status): (b: Button)
    ensures b == StartButton <==> s == Stopped
    ensures b == StopButton <==> s == Running
    ensures b == StartingSpinner <==> s == Starting
  {
    match s
    case Stopped => StartButton
    case Starting => StartingSpinner
    case Running => StopButton
  }

  /** A button the user can click: the spinner is disabled. */
  predicate Enabled(b: Button) {
    b != StartingSpinner
  }

  // ---------------------------------------------------------------- event runs

  /** What can happen to the list: a click on box `index`'s button, or a start timer for `id`
      firing with the given draws. A timer may fire for any id at any time, also when no start
      of that id is pending: this over-approximates the timers the page can schedule, which is
      sound for the safety properties proved over runs below. */
  datatype Event = Click(index: nat) | TimerFires(id: int, draws: Draws)

  /** One event. A click runs the handler of the button shown for that box; a click on a
      button that is not `Enabled`, or on no box, changes nothing. */
  function Step(boxes: seq<Box>, e: Event): (r: seq<Box>)
    ensures |r| == |boxes|
    ensures forall i | 0 <= i < |boxes| :: SameEntry(boxes[i], r[i])
    ensures AllConsistent(boxes) ==> AllConsistent(r)
  {
    match e
    case Click(k) =>
      if k >= |boxes| || !Enabled(OfferedButton(boxes[k].status)) then boxes
      else if OfferedButton(boxes[k].status) == StartButton then StartBox(boxes, boxes[k].id)
      else StopBox(boxes, boxes[k].id)
    case TimerFires(id, draws) => CompleteStartAsWritten(boxes, id, draws)
  }

  function Run(boxes: seq<Box>, events: seq<Event>): seq<Box>
    decreases |events|
  {
    if |events| == 0 then boxes else Run(Step(boxes, events[0]), events[1..])
  }

  /** Over any run of clicks and timers, the catalog entries and their order are kept and
      every box's lease fields stay consistent with its status. */
  lemma {:induction false} RunPreservesCatalogAndConsistency(boxes: seq<Box>, events: seq<Event>)
    requires AllConsistent(boxes)
    ensures |Run(boxes, events)| == |boxes|
    ensures forall i | 0 <= i < |boxes| :: SameEntry(boxes[i], Run(boxes, events)[i])
    ensures AllConsistent(Run(boxes, events))
    decreases |events|
  {
    if |events| > 0 {
      var next := Step(boxes, events[0]);
      RunPreservesCatalogAndConsistency(next, events[1..]);
    }
  }

  /** Clicking a box's button acts exactly when the button is enabled, that is, never on a
      starting box; on any other box it flips stopped to starting or running to stopped. */
  lemma ClickFollowsButton(boxes: seq<Box>, k: nat)
    requires k < |boxes|
    ensures !Enabled(OfferedButton(boxes[k].status)) <==> boxes[k].status == Starting
    ensures !Enabled(OfferedButton(boxes[k].status)) ==> Step(boxes, Click(k)) == boxes
    ensures boxes[k].status == Stopped ==> Step(boxes, Click(k))[k].status == Starting
    ensures boxes[k].status == Running ==> Step(boxes, Click(k))[k].status == Stopped
  {
  }
}
