/** DNS names on the wire (sections 3.1 and 4.1.4 of RFC 1035): the writer and the reader, with compression
    pointers, of scripts/verify-authoritative-dns.py. */
module DnsName {
  import opened Collections

  type Byte = x: int | 0 <= x < 256
  type Label = string

  /** Every ValueError the two functions raise, UnicodeError among them. */
  datatype Result<+T> = Ok(value: T) | ValueError

  /** The masks of the source, as the comparisons the model uses. */
  lemma MasksAreThresholds(b: bv8)
    ensures b & 0xC0 == 0xC0 <==> b >= 0xC0
    ensures b & 0xC0 != 0 <==> b >= 0x40
    ensures b >= 0xC0 ==> b & 0x3F == b - 0xC0
  {
  }

  /** And its way of putting a pointer together. */
  lemma PointerIsTwoBytes(high: bv16, low: bv16)
    requires high < 0x40 && low < 0x100
    ensures (high << 8) | low == 256 * high + low
  {
  }

  // ----- Text -----

  /** name.rstrip("."). */
  function StripDots(name: string): (r: string)
    ensures r == [] || r[|r| - 1] != '.'
    ensures |r| <= |name| && r == name[..|r|] && forall i :: |r| <= i < |name| ==> name[i] == '.'
  {
    if name != [] && name[|name| - 1] == '.' then StripDots(name[..|name| - 1]) else name
  }

  /** name.split("."). */
  function Split(name: string): (labels: seq<Label>)
    ensures labels != [] && forall l :: l in labels ==> '.' !in l
  {
    if name == [] then [[]]
    else
      var rest := Split(name[1..]);
      if name[0] == '.' then [[]] + rest else [[name[0]] + rest[0]] + rest[1..]
  }

  /** ".".join(labels). */
  function Join(labels: seq<Label>): string {
    if labels == [] then []
    else if |labels| == 1 then labels[0]
    else labels[0] + "." + Join(labels[1..])
  }

  lemma {:induction false} JoinSplit(name: string)
    ensures Join(Split(name)) == name
  {
    if name != [] {
      JoinSplit(name[1..]);
      var rest := Split(name[1..]);
      if name[0] == '.' {
        assert ([[]] + rest)[1..] == rest;
        assert Join([[]] + rest) == "." + Join(rest);
      } else {
        var labels := [[name[0]] + rest[0]] + rest[1..];
        assert labels[1..] == rest[1..];
        assert Join(labels) == [name[0]] + Join(rest);
      }
    }
  }

  predicate IsAscii(l: Label) {
    forall i :: 0 <= i < |l| ==> l[i] < 128 as char
  }

  function ToBytes(text: Label): (r: seq<Byte>)
    requires IsAscii(text)
    ensures |r| == |text| && forall i :: 0 <= i < |r| ==> r[i] == text[i] as int
  {
    seq(|text|, i requires 0 <= i < |text| => text[i] as int)
  }

  predicate IsAsciiBytes(bytes: seq<Byte>) {
    forall i :: 0 <= i < |bytes| ==> bytes[i] < 128
  }

  function FromBytes(bytes: seq<Byte>): (r: Label)
    requires IsAsciiBytes(bytes)
    ensures |r| == |bytes| && forall i :: 0 <= i < |r| ==> r[i] as int == bytes[i]
  {
    seq(|bytes|, i requires 0 <= i < |bytes| => bytes[i] as char)
  }

  // ----- Writing -----

  predicate IsWireLabel(text: Label) {
    IsAscii(text) && 1 <= |text| <= 63
  }

  predicate AreWireLabels(labels: seq<Label>) {
    forall i :: 0 <= i < |labels| ==> IsWireLabel(labels[i])
  }

  /** RFC 1035's bounds, and the characters that the codec takes. */
  lemma WireLabelMeans(l: Label)
    ensures IsWireLabel(l) <==> 1 <= |l| <= 63 && forall c :: c in l ==> c as int < 128
  {
    if forall c :: c in l ==> c as int < 128 {
      forall i | 0 <= i < |l| ensures l[i] < 128 as char {
        var c := l[i];
        assert c in l && c as int < 128;
      }
    }
  }

  /** A length byte, then the characters. */
  function WireLabel(l: Label): (r: seq<Byte>)
    requires IsWireLabel(l)
    ensures |r| == 1 + |l|
  {
    var length: Byte := |l|;
    [length] + ToBytes(l)
  }

  /** The labels of a name; the root has none. */
  function LabelsOf(name: string): seq<Label> {
    if StripDots(name) == [] then [] else Split(StripDots(name))
  }

  /** Length-prefixed labels. */
  function OpenWire(labels: seq<Label>): seq<Byte>
    requires AreWireLabels(labels)
  {
    if labels == [] then [] else WireLabel(labels[0]) + OpenWire(labels[1..])
  }

  /** Closed by the root label. */
  function Wire(labels: seq<Label>): seq<Byte>
    requires AreWireLabels(labels)
  {
    OpenWire(labels) + [0]
  }

  lemma {:induction false} OpenWireGrows(labels: seq<Label>, l: Label)
    requires AreWireLabels(labels) && IsWireLabel(l)
    ensures AreWireLabels(labels + [l]) && OpenWire(labels + [l]) == OpenWire(labels) + WireLabel(l)
  {
    var more := labels + [l];
    assert AreWireLabels(more);
    if labels == [] {
      assert more[1..] == [] && OpenWire(more[1..]) == [];
    } else {
      assert more[0] == labels[0] && more[1..] == labels[1..] + [l];
      OpenWireGrows(labels[1..], l);
    }
  }

  method EncodeName(name: string) returns (r: Result<seq<Byte>>)
    ensures r.Ok? <==> AreWireLabels(LabelsOf(name))
    ensures r.Ok? ==> r.value == Wire(LabelsOf(name))
  {
    var stripped := StripDots(name);
    if stripped == [] {
      return Ok([0]);
    }
    var labels := Split(stripped);
    var encoded: seq<Byte> := [];
    for i := 0 to |labels|
      invariant AreWireLabels(labels[..i]) && encoded == OpenWire(labels[..i])
    {
      if !IsAscii(labels[i]) {
        return ValueError;
      }
      var part := ToBytes(labels[i]);
      if part == [] || |part| > 63 {
        return ValueError;
      }
      OpenWireGrows(labels[..i], labels[i]);
      assert labels[..i + 1] == labels[..i] + [labels[i]];
      var length: Byte := |part|;
      assert [length] + part == WireLabel(labels[i]);
      encoded := encoded + [length];
      encoded := encoded + part;
    }
    assert labels[..|labels|] == labels;
    encoded := encoded + [0];
    r := Ok(encoded);
  }

  // ----- Reading: what the bytes mean -----

  /** One step of a name at an offset. */
  datatype Step = Stop | Text(text: Label, next: nat) | Jump(target: nat) | Malformed

  function StepAt(message: seq<Byte>, offset: nat): Step {
    if offset >= |message| then Malformed
    else
      var length: int := message[offset];
      if length >= 0xC0 then
        if offset + 1 >= |message| then Malformed else Jump((length - 0xC0) * 256 + message[offset + 1])
      else if length == 0 then Stop
      else if length >= 0x40 then Malformed
      else if offset + 1 + length > |message| then Malformed
      else if !IsAsciiBytes(message[offset + 1..offset + 1 + length]) then Malformed
      else Text(FromBytes(message[offset + 1..offset + 1 + length]), offset + 1 + length)
  }

  function Next(step: Step): nat
    requires step.Text? || step.Jump?
  {
    if step.Text? then step.next else step.target
  }

  /** The name at this offset ends after exactly n labels and pointers. */
  ghost predicate Ends(message: seq<Byte>, offset: nat, n: nat)
    decreases n
  {
    var step := StepAt(message, offset);
    if n == 0 then step.Stop?
    else (step.Text? || step.Jump?) && Ends(message, Next(step), n - 1)
  }

  ghost predicate IsName(message: seq<Byte>, offset: nat) {
    exists n: nat :: Ends(message, offset, n)
  }

  ghost function Labels(message: seq<Byte>, offset: nat, n: nat): seq<Label>
    requires Ends(message, offset, n)
    decreases n
  {
    if n == 0 then []
    else
      var step := StepAt(message, offset);
      (if step.Text? then [step.text] else []) + Labels(message, Next(step), n - 1)
  }

  /** Just past the name where it stands: past its first pointer, or past its root label. */
  ghost function EndOffset(message: seq<Byte>, offset: nat, n: nat): (e: nat)
    requires Ends(message, offset, n)
    ensures offset < e <= |message|
    decreases n
  {
    var step := StepAt(message, offset);
    if n == 0 then offset + 1
    else if step.Jump? then offset + 2
    else EndOffset(message, step.next, n - 1)
  }

  lemma {:induction false} EndsOnce(message: seq<Byte>, offset: nat, m: nat, n: nat)
    requires Ends(message, offset, m) && Ends(message, offset, n)
    ensures m == n
    decreases m
  {
    if m > 0 && n > 0 {
      EndsOnce(message, Next(StepAt(message, offset)), m - 1, n - 1);
    }
  }

  /** The text and the end offset that a name at `start` stands for. */
  ghost predicate IsReading(message: seq<Byte>, start: nat, name: string, end: nat) {
    exists n: nat :: Ends(message, start, n) && name == Join(Labels(message, start, n)) + "."
      && end == EndOffset(message, start, n)
  }

  // ----- Reading: the loop -----

  /** What the loop knows after `taken` steps from `start`: should the name end k steps on, what it then is. */
  ghost predicate Walked(message: seq<Byte>, start: nat, taken: nat, offset: nat,
                         labels: seq<Label>, endOffset: Option<nat>) {
    forall k: nat :: Ends(message, offset, k) ==> WalkedTo(message, start, taken, offset, labels, endOffset, k)
  }

  ghost predicate WalkedTo(message: seq<Byte>, start: nat, taken: nat, offset: nat,
                           labels: seq<Label>, endOffset: Option<nat>, k: nat)
    requires Ends(message, offset, k)
  {
    && Ends(message, start, taken + k)
    && Labels(message, start, taken + k) == labels + Labels(message, offset, k)
    && EndOffset(message, start, taken + k) ==
         if endOffset.Some? then endOffset.value else EndOffset(message, offset, k)
  }

  lemma WalkOn(message: seq<Byte>, start: nat, taken: nat, offset: nat, labels: seq<Label>, endOffset: Option<nat>)
    requires Walked(message, start, taken, offset, labels, endOffset)
    ensures var step := StepAt(message, offset);
      && (step.Text? ==> Walked(message, start, taken + 1, step.next, labels + [step.text], endOffset))
      && (step.Jump? ==> Walked(message, start, taken + 1, step.target, labels,
                                if endOffset.Some? then endOffset else Some(offset + 2)))
  {
    var step := StepAt(message, offset);
    if step.Text? || step.Jump? {
      var next := Next(step);
      var labels' := if step.Text? then labels + [step.text] else labels;
      var end' := if step.Jump? && endOffset.None? then Some(offset + 2) else endOffset;
      forall k: nat | Ends(message, next, k) ensures WalkedTo(message, start, taken + 1, next, labels', end', k) {
        assert Ends(message, offset, k + 1);
        assert WalkedTo(message, start, taken, offset, labels, endOffset, k + 1);
        WalkOnBy(message, start, taken, offset, labels, endOffset, k);
      }
    }
  }

  lemma WalkOnBy(message: seq<Byte>, start: nat, taken: nat, offset: nat,
                 labels: seq<Label>, endOffset: Option<nat>, k: nat)
    requires Ends(message, offset, k + 1) && WalkedTo(message, start, taken, offset, labels, endOffset, k + 1)
    ensures var step := StepAt(message, offset);
      WalkedTo(message, start, taken + 1, Next(step), if step.Text? then labels + [step.text] else labels,
               if step.Jump? && endOffset.None? then Some(offset + 2) else endOffset, k)
  {
    assert taken + (k + 1) == taken + 1 + k;
  }

  ghost predicate IsFinished(message: seq<Byte>, start: nat, labels: seq<Label>, end: nat) {
    IsName(message, start) && start < end <= |message| && IsReading(message, start, Join(labels) + ".", end)
  }

  lemma WalkStops(message: seq<Byte>, start: nat, taken: nat, offset: nat, labels: seq<Label>, endOffset: Option<nat>)
    requires Walked(message, start, taken, offset, labels, endOffset) && StepAt(message, offset).Stop?
    ensures IsFinished(message, start, labels, if endOffset.Some? then endOffset.value else offset + 1)
  {
    assert Ends(message, offset, 0);
    assert WalkedTo(message, start, taken, offset, labels, endOffset, 0);
    assert Labels(message, start, taken) == labels;
  }

  /** If the name does end, after n steps, then this walk leads there: from where it stands, and from every
      offset of its trail. */
  ghost predicate OnWay(message: seq<Byte>, n: nat, offset: nat, trail: seq<nat>) {
    && |trail| <= n && Ends(message, offset, n - |trail|)
    && forall i :: 0 <= i < |trail| ==> Ends(message, trail[i], n - i)
  }

  lemma OnWayForward(message: seq<Byte>, n: nat, offset: nat, trail: seq<nat>)
    requires OnWay(message, n, offset, trail)
    ensures var step := StepAt(message, offset);
      && !step.Malformed?
      && (step.Text? || step.Jump? ==> OnWay(message, n, Next(step), trail + [offset]))
  {
    EndsForward(message, offset, n - |trail|);
  }

  lemma EndsForward(message: seq<Byte>, offset: nat, n: nat)
    requires Ends(message, offset, n)
    ensures var step := StepAt(message, offset);
      && !step.Malformed?
      && (step.Text? || step.Jump? ==> n > 0 && Ends(message, Next(step), n - 1))
  {
  }

  /** An offset met twice would end the same name after two different numbers of steps. */
  lemma LoopNeverEnds(message: seq<Byte>, n: nat, offset: nat, trail: seq<nat>)
    requires OnWay(message, n, offset, trail)
    ensures offset !in trail
  {
    if offset in trail {
      var i :| 0 <= i < |trail| && trail[i] == offset;
      EndsOnce(message, offset, n - |trail|, n - i);
    }
  }

  ghost predicate Leads(message: seq<Byte>, start: nat, n: nat, offset: nat, trail: seq<nat>) {
    IsName(message, start) ==> OnWay(message, n, offset, trail)
  }

  lemma LeadsOn(message: seq<Byte>, start: nat, n: nat, offset: nat, trail: seq<nat>)
    requires Leads(message, start, n, offset, trail)
    ensures var step := StepAt(message, offset);
      && (step.Malformed? || offset in trail ==> !IsName(message, start))
      && (step.Text? || step.Jump? ==> Leads(message, start, n, Next(step), trail + [offset]))
  {
    if IsName(message, start) {
      OnWayForward(message, n, offset, trail);
      LoopNeverEnds(message, n, offset, trail);
    }
  }

  ghost function Steps(message: seq<Byte>, start: nat): (n: nat)
    ensures IsName(message, start) ==> Ends(message, start, n)
  {
    if IsName(message, start) then var n: nat :| Ends(message, start, n); n else 0
  }

  ghost predicate Reading(message: seq<Byte>, start: nat, n: nat, offset: nat,
                          labels: seq<Label>, endOffset: Option<nat>, trail: seq<nat>) {
    Walked(message, start, |trail|, offset, labels, endOffset) && Leads(message, start, n, offset, trail)
  }

  lemma ReadOn(message: seq<Byte>, start: nat, n: nat, offset: nat,
               labels: seq<Label>, endOffset: Option<nat>, trail: seq<nat>)
    requires Reading(message, start, n, offset, labels, endOffset, trail)
    ensures var step, trail' := StepAt(message, offset), trail + [offset];
      && (step.Malformed? || offset in trail ==> !IsName(message, start))
      && (step.Text? ==> Reading(message, start, n, step.next, labels + [step.text], endOffset, trail'))
      && (step.Jump? ==> Reading(message, start, n, step.target, labels,
                                 if endOffset.Some? then endOffset else Some(offset + 2), trail'))
      && (step.Stop? ==> IsFinished(message, start, labels,
                                    if endOffset.Some? then endOffset.value else offset + 1))
  {
    WalkOn(message, start, |trail|, offset, labels, endOffset);
    LeadsOn(message, start, n, offset, trail);
    if StepAt(message, offset).Stop? {
      WalkStops(message, start, |trail|, offset, labels, endOffset);
    }
  }

  method ReadName(message: seq<Byte>, start: nat) returns (r: Result<(string, nat)>)
    ensures r.Ok? <==> IsName(message, start)
    ensures r.Ok? ==> IsReading(message, start, r.value.0, r.value.1)
    ensures r.Ok? ==> start < r.value.1 <= |message|
  {
    var labels: seq<Label> := [];
    var endOffset: Option<nat> := None;
    var seen: set<nat> := {};
    var offset: nat := start;
    ghost var trail: seq<nat> := [];  // the seen offsets, in order
    ghost var n := Steps(message, start);
    WalkBegins(message, start);
    while true
      invariant (forall s :: s in seen <==> s in trail) && seen <= Below(|message|)
      invariant Reading(message, start, n, offset, labels, endOffset, trail)
      decreases Below(|message|) - seen
    {
      ReadOn(message, start, n, offset, labels, endOffset, trail);
      if offset >= |message| {
        return ValueError;
      }
      if offset in seen {
        return ValueError;
      }
      seen := seen + {offset};
      trail := trail + [offset];
      var step := StepAt(message, offset);
      match step {
        case Malformed =>
          return ValueError;
        case Stop =>
          if endOffset.None? {
            endOffset := Some(offset + 1);
          }
          return Ok((Join(labels) + ".", endOffset.value));
        case Jump(target) =>
          if endOffset.None? {
            endOffset := Some(offset + 2);
          }
          offset := target;
        case Text(text, next) =>
          labels := labels + [text];
          offset := next;
      }
    }
  }

  lemma WalkBegins(message: seq<Byte>, start: nat)
    ensures Walked(message, start, 0, start, [], None)
  {
    forall k: nat | Ends(message, start, k) ensures WalkedTo(message, start, 0, start, [], None, k) {
      assert [] + Labels(message, start, k) == Labels(message, start, k);
    }
  }

  // ----- Round trip -----

  /** The labels met from `offset` on, and the end of the name where it stands. */
  ghost predicate ReadsAs(message: seq<Byte>, offset: nat, labels: seq<Label>, end: nat) {
    exists n: nat :: Ends(message, offset, n) && Labels(message, offset, n) == labels && EndOffset(message, offset, n) == end
  }

  lemma ReadsAsName(message: seq<Byte>, offset: nat, labels: seq<Label>, end: nat)
    requires ReadsAs(message, offset, labels, end)
    ensures IsName(message, offset) && IsReading(message, offset, Join(labels) + ".", end)
  {
  }

  ghost predicate Holds(message: seq<Byte>, offset: nat, bytes: seq<Byte>) {
    offset + |bytes| <= |message| && message[offset..offset + |bytes|] == bytes
  }

  lemma HoldsParts(message: seq<Byte>, offset: nat, head: seq<Byte>, rest: seq<Byte>)
    requires Holds(message, offset, head + rest)
    ensures Holds(message, offset, head) && Holds(message, offset + |head|, rest)
  {
    var bytes := message[offset..offset + |head + rest|];
    assert bytes[..|head|] == head && bytes[|head|..] == rest;
  }

  lemma RootLeads(message: seq<Byte>, offset: nat)
    requires Holds(message, offset, [0])
    ensures ReadsAs(message, offset, [], offset + 1)
  {
    var bytes := message[offset..offset + 1];
    assert bytes[0] == 0 && message[offset] == bytes[0];
    assert Ends(message, offset, 0);
  }

  lemma LabelLeads(message: seq<Byte>, offset: nat, labels: seq<Label>, rest: seq<Label>, end: nat)
    requires labels != [] && StepAt(message, offset).Text? && StepAt(message, offset).text == labels[0]
    requires ReadsAs(message, StepAt(message, offset).next, labels[1..] + rest, end)
    ensures ReadsAs(message, offset, labels + rest, end)
  {
    var next := StepAt(message, offset).next;
    var n: nat :| Ends(message, next, n) && Labels(message, next, n) == labels[1..] + rest
      && EndOffset(message, next, n) == end;
    assert [labels[0]] + (labels[1..] + rest) == labels + rest;
    assert Ends(message, offset, n + 1);
  }

  lemma HeadOfWire(message: seq<Byte>, offset: nat, labels: seq<Label>)
    requires AreWireLabels(labels) && labels != [] && Holds(message, offset, OpenWire(labels))
    ensures Holds(message, offset, WireLabel(labels[0])) && AreWireLabels(labels[1..])
    ensures Holds(message, offset + 1 + |labels[0]|, OpenWire(labels[1..]))
    ensures |OpenWire(labels)| == 1 + |labels[0]| + |OpenWire(labels[1..])|
  {
    var head, rest := WireLabel(labels[0]), OpenWire(labels[1..]);
    assert OpenWire(labels) == head + rest;
    HoldsParts(message, offset, head, rest);
  }

  /** Written labels read as themselves, followed by what stands behind them. */
  lemma {:induction false} LabelsLead(message: seq<Byte>, offset: nat, labels: seq<Label>, rest: seq<Label>, end: nat)
    requires AreWireLabels(labels) && Holds(message, offset, OpenWire(labels))
    requires ReadsAs(message, offset + |OpenWire(labels)|, rest, end)
    ensures ReadsAs(message, offset, labels + rest, end)
    decreases |labels|
  {
    if labels == [] {
      assert labels + rest == rest;
    } else {
      HeadOfWire(message, offset, labels);
      FirstLabel(message, offset, labels[0]);
      LabelsLead(message, offset + 1 + |labels[0]|, labels[1..], rest, end);
      LabelLeads(message, offset, labels, rest, end);
    }
  }

  /** A written name, wherever it lies in a message, reads back as itself with one closing dot, and reading
      stops just past it. */
  lemma RoundTrip(name: string, message: seq<Byte>, offset: nat)
    requires AreWireLabels(LabelsOf(name)) && Holds(message, offset, Wire(LabelsOf(name)))
    ensures IsReading(message, offset, StripDots(name) + ".", offset + |Wire(LabelsOf(name))|)
    ensures IsName(message, offset)
  {
    var labels := LabelsOf(name);
    HoldsParts(message, offset, OpenWire(labels), [0]);
    var root := offset + |OpenWire(labels)|;
    RootLeads(message, root);
    LabelsLead(message, offset, labels, [], root + 1);
    assert labels + [] == labels;
    ReadsAsName(message, offset, labels, root + 1);
    JoinSplit(StripDots(name));
  }

  /** A message has one reading at an offset, so what ReadName returns there is the written name. */
  lemma ReadingIsUnique(message: seq<Byte>, offset: nat, name: string, end: nat, name': string, end': nat)
    requires IsReading(message, offset, name, end) && IsReading(message, offset, name', end')
    ensures name == name' && end == end'
  {
    var n: nat :| Ends(message, offset, n) && name == Join(Labels(message, offset, n)) + "."
      && end == EndOffset(message, offset, n);
    var n': nat :| Ends(message, offset, n') && name' == Join(Labels(message, offset, n')) + "."
      && end' == EndOffset(message, offset, n');
    EndsOnce(message, offset, n, n');
  }

  lemma FirstLabel(message: seq<Byte>, offset: nat, l: Label)
    requires IsWireLabel(l) && Holds(message, offset, WireLabel(l))
    ensures StepAt(message, offset) == Text(l, offset + 1 + |l|)
  {
    var wire, bytes := message[offset..offset + 1 + |l|], message[offset + 1..offset + 1 + |l|];
    assert message[offset] == wire[0] && bytes == wire[1..] == ToBytes(l);
    assert FromBytes(bytes) == l;
  }

  lemma PointerLeads(message: seq<Byte>, offset: nat, target: nat, rest: seq<Label>, end: nat)
    requires target < 0x4000 && Holds(message, offset, [0xC0 + target / 256, target % 256])
    requires ReadsAs(message, target, rest, end)
    ensures ReadsAs(message, offset, rest, offset + 2)
  {
    var bytes := message[offset..offset + 2];
    assert message[offset] == bytes[0] && message[offset + 1] == bytes[1];
    assert StepAt(message, offset) == Jump(target);
    var n: nat :| Ends(message, target, n) && Labels(message, target, n) == rest && EndOffset(message, target, n) == end;
    assert Ends(message, offset, n + 1) && Labels(message, offset, n + 1) == [] + rest;
  }

  /** Written labels before a pointer read as those labels followed by what stands where the pointer leads, and the
      reading stops just past the pointer (section 4.1.4 of RFC 1035). */
  lemma CompressedRoundTrip(message: seq<Byte>, target: nat, rest: seq<Label>, end: nat, labels: seq<Label>, offset: nat)
    requires ReadsAs(message, target, rest, end) && target < 0x4000 && AreWireLabels(labels)
    requires Holds(message, offset, OpenWire(labels) + [0xC0 + target / 256, target % 256])
    ensures ReadsAs(message, offset, labels + rest, offset + |OpenWire(labels)| + 2)
    ensures IsReading(message, offset, Join(labels + rest) + ".", offset + |OpenWire(labels)| + 2)
  {
    HoldsParts(message, offset, OpenWire(labels), [0xC0 + target / 256, target % 256]);
    var pointer := offset + |OpenWire(labels)|;
    PointerLeads(message, pointer, target, rest, end);
    LabelsLead(message, offset, labels, rest, pointer + 2);
    ReadsAsName(message, offset, labels + rest, pointer + 2);
  }

  // ----- What each byte leads to -----

  /** Where the two bytes of a pointer lead. */
  function PointerTarget(high: int, low: int): (target: nat)
    requires 0xC0 <= high < 0x100 && 0 <= low < 0x100
    ensures target < 0x4000
  {
    256 * (high - 0xC0) + low
  }

  /** By its first byte, a name is the root, a label before a name, or a pointer to a name; nothing else is a name. */
  lemma NameByFirstByte(message: seq<Byte>, offset: nat)
    ensures offset >= |message| ==> !IsName(message, offset)
    ensures offset < |message| && message[offset] == 0 ==> ReadsAs(message, offset, [], offset + 1)
    ensures offset < |message| && 0x40 <= message[offset] < 0xC0 ==> !IsName(message, offset)
    ensures offset < |message| && 0 < message[offset] < 0x40 ==>
      var next := offset + 1 + message[offset];
      (IsName(message, offset) <==>
        next <= |message| && (forall i :: offset < i < next ==> message[i] < 128) && IsName(message, next))
    ensures offset < |message| && message[offset] >= 0xC0 ==>
      (IsName(message, offset) <==>
        offset + 1 < |message| && IsName(message, PointerTarget(message[offset], message[offset + 1])))
  {
    var step := StepAt(message, offset);
    OneStep(message, offset);
    if step.Stop? {
      assert Ends(message, offset, 0);
    }
    if offset < |message| && 0 < message[offset] < 0x40 && offset + 1 + message[offset] <= |message| {
      var next := offset + 1 + message[offset];
      var bytes := message[offset + 1..next];
      assert forall i :: offset < i < next ==> message[i] == bytes[i - offset - 1];
      assert forall j :: 0 <= j < |bytes| ==> bytes[j] == message[offset + 1 + j];
      assert IsAsciiBytes(bytes) <==> forall i :: offset < i < next ==> message[i] < 128;
    }
  }

  lemma OneStep(message: seq<Byte>, offset: nat)
    ensures var step := StepAt(message, offset);
      IsName(message, offset) <==> step.Stop? || ((step.Text? || step.Jump?) && IsName(message, Next(step)))
  {
    var step := StepAt(message, offset);
    if n: nat :| Ends(message, offset, n) {
      assert step.Text? || step.Jump? ==> Ends(message, Next(step), n - 1);
    }
    if step.Stop? {
      assert Ends(message, offset, 0);
    } else if step.Text? || step.Jump? {
      if n: nat :| Ends(message, Next(step), n) {
        assert Ends(message, offset, n + 1);
      }
    }
  }
}
