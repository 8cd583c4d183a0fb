/** The paired tracers of examples/tcp/tcp-variants-comparison.cc: every change of one window is
    also written, with the value held of the other, to the other stream of the same node.
 */
module TcpVariants {

  import opened CxxText

  // ----- contexts

  datatype NodeId = Id(id: nat) | NotANumber

  /** The negative of a number in 64 bits. */
  function Negated(n: nat): nat
    requires n < UINT64
  {
    (UINT64 - n) % UINT64
  }

  /** std::stoul: white space, a sign and digits, in 64 bits; NotANumber stands for its two
      exceptions. */
  function ToUnsignedLong(s: string): NodeId {
    var t := SkipSpace(s);
    var signed := t != "" && (t[0] == '+' || t[0] == '-');
    var u := if signed then t[1..] else t;
    var n := DigitsLength(u);
    if n == 0 || Value(u[..n]) >= UINT64 then NotANumber
    else if signed && t[0] == '-' then Id(Negated(Value(u[..n])))
    else Id(Value(u[..n]))
  }

  /** The number between the second and the third slash, cut to 32 bits. */
  function GetNodeIdFromContext(context: string): NodeId {
    var n1 := if context == "" then 0 else Find(context, '/', 1);
    var start := if n1 == |context| then 0 else n1 + 1;
    var id := ToUnsignedLong(context[start..Find(context, '/', start)]);
    if id.Id? then Id(id.id % UINT32) else id
  }

  /** The path under which TraceCwnd and TraceSsThresh connect a tracer. */
  function TracePath(id: nat, source: string): string {
    "/" + "NodeList" + "/" + ToString(id) + "/" + ("$ns3::TcpL4Protocol/SocketList/0/" + source)
  }

  /** std::stoul in full: of a number behind white space and with a sign, a negative one counted
      down from 2^64; it throws without digits and beyond 64 bits. */
  lemma NumberIff(p: string, sign: string, digits: string, rest: string)
    requires (forall i :: 0 <= i < |p| ==> IsSpace(p[i])) && IsSign(sign)
    requires (forall i :: 0 <= i < |digits| ==> IsDigit(digits[i])) && (rest != "" ==> !IsDigit(rest[0]))
    requires sign + digits == "" && rest != "" ==> !IsSpace(rest[0]) && rest[0] != '+' && rest[0] != '-'
    ensures var r := ToUnsignedLong(p + (sign + (digits + rest)));
      && (r.NotANumber? <==> digits == "" || Value(digits) >= 0x1_0000_0000_0000_0000)
      && (r.Id? && sign != "-" ==> r.id == Value(digits))
      && (r.Id? && sign == "-" ==> r.id == if Value(digits) == 0 then 0 else 0x1_0000_0000_0000_0000 - Value(digits))
  {
    hide SkipSpace, DigitsLength, IsSpace, IsDigit, Value, Negated;
    NumberParts(p, sign, digits, rest);
    if Value(digits) < UINT64 { CountsDown(Value(digits)); }
  }

  lemma CountsDown(n: nat)
    requires n < UINT64
    ensures Negated(n) == if n == 0 then 0 else 0x1_0000_0000_0000_0000 - n
  {
  }

  lemma NumberRoundTrip(n: nat)
    requires n < UINT64
    ensures ToUnsignedLong(ToString(n)) == Id(n)
  {
    var digits := ToString(n);
    ToStringValue(n);
    AllDigits(digits);
    hide ToString, Value;
    DigitIsNoSign(digits[0]);
    assert SkipSpace(digits) == digits && digits[..|digits|] == digits;
  }

  lemma DigitIsNoSign(c: char)
    requires IsDigit(c)
    ensures !IsSpace(c) && c != '+' && c != '-'
  {
  }

  /** In "/name/field/rest" the identifier is read from the field. */
  lemma ContextField(name: string, field: string, rest: string)
    requires '/' !in name && '/' !in field
    ensures ToUnsignedLong(field).Id? ==>
      GetNodeIdFromContext("/" + name + "/" + field + "/" + rest) == Id(ToUnsignedLong(field).id % UINT32)
    ensures ToUnsignedLong(field).NotANumber? ==>
      GetNodeIdFromContext("/" + name + "/" + field + "/" + rest) == NotANumber
  {
    hide ToUnsignedLong;
    var context := "/" + name + "/" + field + "/" + rest;
    var n1 := |name| + 1;
    var n2 := n1 + 1 + |field|;
    assert forall i :: 1 <= i < n1 ==> context[i] == name[i - 1];
    assert context[n1] == '/' && context[n2] == '/';
    assert Find(context, '/', 1) == n1;
    assert context[n1 + 1..n2] == field;
    assert forall i :: n1 + 1 <= i < n2 ==> context[i] == field[i - n1 - 1];
    assert Find(context, '/', n1 + 1) == n2;
  }

  /** Without a second slash there is no field, and the number is read from the start. */
  lemma ContextWithoutField(context: string)
    requires forall i :: 1 <= i < |context| ==> context[i] != '/'
    ensures var id := ToUnsignedLong(if context != "" && context[0] == '/' then "" else context);
      GetNodeIdFromContext(context) == if id.Id? then Id(id.id % UINT32) else NotANumber
  {
    hide ToUnsignedLong;
    if context != "" {
      assert Find(context, '/', 1) == |context|;
      assert Find(context, '/', 0) == if context[0] == '/' then 0 else |context|;
      assert context[0..|context|] == context && context[0..0] == "";
    }
  }

  /** A tracer finds in its context the node it was connected for. */
  lemma ContextRoundTrip(id: nat, source: string)
    requires id < UINT32
    ensures GetNodeIdFromContext(TracePath(id, source)) == Id(id)
  {
    hide GetNodeIdFromContext, ToUnsignedLong, ToString, Value;
    var tail := "$ns3::TcpL4Protocol/SocketList/0/" + source;
    ToStringValue(id);
    NumberRoundTrip(id);
    ContextField("NodeList", ToString(id), tail);
  }

  // ----- what the streams should hold

  datatype Window = Cwnd | SsThresh

  datatype Change = Change(window: Window, time: nat, oldValue: nat, newValue: nat)

  datatype Line = Line(time: nat, value: nat)

  predicate Seen(w: Window, changes: seq<Change>) {
    exists i :: 0 <= i < |changes| && changes[i].window == w
  }

  /** The newest value of a window, once it has changed. */
  function Newest(w: Window, changes: seq<Change>): nat {
    if changes == [] then 0
    else
      var last := changes[|changes| - 1];
      if last.window == w then last.newValue else Newest(w, changes[..|changes| - 1])
  }

  /** Sample and hold: nothing before the first change of the window itself; that change also
      writes the old value at time zero; from then on one line for every change of either. */
  function Stream(w: Window, changes: seq<Change>): seq<Line> {
    if !Seen(w, changes) then []
    else
      var before, last := changes[..|changes| - 1], changes[|changes| - 1];
      (if Seen(w, before) then Stream(w, before) else [Line(0, last.oldValue)])
      + [Line(last.time, Newest(w, changes))]
  }

  /** The newest value is that of the last change of the window. */
  lemma {:induction false} NewestIsLast(w: Window, changes: seq<Change>, i: nat)
    requires i < |changes| && changes[i].window == w
    requires forall k :: i < k < |changes| ==> changes[k].window != w
    ensures Newest(w, changes) == changes[i].newValue
  {
    if i < |changes| - 1 { NewestIsLast(w, changes[..|changes| - 1], i); }
  }

  predicate BothSeen(changes: seq<Change>) { Seen(Cwnd, changes) && Seen(SsThresh, changes) }

  /** One line for each of the later changes, of either window: at the time of the change, with
      the newest value of window `w` at that moment. */
  function Samples(w: Window, before: seq<Change>, more: seq<Change>): seq<Line> {
    seq(|more|, k requires 0 <= k < |more| => Line(more[k].time, Newest(w, before + more[..k + 1])))
  }

  /** Once both windows have changed, the two streams stay in step: every later change adds
      exactly one line to both. */
  lemma {:induction false} StreamsInStep(w: Window, before: seq<Change>, more: seq<Change>)
    requires BothSeen(before)
    ensures Stream(w, before + more) == Stream(w, before) + Samples(w, before, more)
  {
    hide Stream, Newest, Seen;
    if more == [] {
      assert before + more == before && Samples(w, before, more) == [];
    } else {
      hide Samples;
      var last := |more| - 1;
      var front := more[..last];
      StreamsInStep(w, before, front);
      StillSeen(Cwnd, before, front);
      StillSeen(SsThresh, before, front);
      NextLine(w, before + front, more[last]);
      SamplesSnoc(w, before, front, more[last]);
      assert more == front + [more[last]] && before + front + [more[last]] == before + more;
    }
  }

  lemma SamplesSnoc(w: Window, before: seq<Change>, front: seq<Change>, c: Change)
    ensures Samples(w, before, front + [c])
         == Samples(w, before, front) + [Line(c.time, Newest(w, before + front + [c]))]
  {
    hide Newest;
    var all := front + [c];
    assert before + all[..|front| + 1] == before + front + [c];
    forall k | 0 <= k < |front| ensures Samples(w, before, all)[k] == Samples(w, before, front)[k] {
      assert all[..k + 1] == front[..k + 1];
    }
  }

  lemma NextLine(w: Window, changes: seq<Change>, c: Change)
    requires Seen(w, changes)
    ensures Stream(w, changes + [c]) == Stream(w, changes) + [Line(c.time, Newest(w, changes + [c]))]
  {
    StillSeen(w, changes, [c]);
    assert (changes + [c])[..|changes|] == changes;
  }

  lemma StillSeen(w: Window, before: seq<Change>, more: seq<Change>)
    requires Seen(w, before)
    ensures Seen(w, before + more)
  {
    var i :| 0 <= i < |before| && before[i].window == w;
    assert (before + more)[i].window == w;
  }

  /** The whole stream: nothing before the first change of the window; that change writes its old
      value at time zero; and it and every later change, of either window, write one line. */
  lemma {:induction false} StreamIs(w: Window, before: seq<Change>, more: seq<Change>)
    requires !Seen(w, before) && more != [] && more[0].window == w
    ensures Stream(w, before) == []
    ensures Stream(w, before + more) == [Line(0, more[0].oldValue)] + Samples(w, before, more)
    decreases |more|
  {
    var last := |more| - 1;
    var front, c := more[..last], more[last];
    assert more == front + [c] && before + front + [c] == before + more;
    hide Samples;
    SamplesSnoc(w, before, front, c);
    if front == [] {
      FirstLines(w, before, c);
      assert before + front == before;
      NoSamples(w, before);
    } else {
      hide Stream, Newest;
      assert (before + front)[|before|].window == w;
      StreamIs(w, before, front);
      NextLine(w, before + front, c);
    }
  }

  lemma NoSamples(w: Window, before: seq<Change>)
    ensures Samples(w, before, []) == []
  {
  }

  lemma FirstLines(w: Window, before: seq<Change>, c: Change)
    requires !Seen(w, before) && c.window == w
    ensures Stream(w, before + [c]) == [Line(0, c.oldValue), Line(c.time, Newest(w, before + [c]))]
  {
    assert (before + [c])[|before|].window == w && (before + [c])[..|before|] == before;
  }

  /** The length of a stream, and its last line, at any moment. */
  lemma {:induction false} StreamShape(w: Window, changes: seq<Change>)
    ensures Seen(w, changes) ==> var s := Stream(w, changes);
      |s| >= 2 && s[|s| - 1] == Line(changes[|changes| - 1].time, Newest(w, changes))
    ensures !Seen(w, changes) ==> Stream(w, changes) == []
  {
  }

  // ----- the tracers

  /** The default that operator[] of std::map inserts. */
  function At<V>(m: map<nat, V>, k: nat, default: V): V {
    if k in m then m[k] else default
  }

  /** The flag, the held value and the stream of one window are what its changes ask for. */
  ghost predicate Holds(w: Window, first: bool, value: nat, stream: seq<Line>, changes: seq<Change>) {
    && first == !Seen(w, changes)
    && stream == Stream(w, changes)
    && (Seen(w, changes) ==> value == Newest(w, changes))
  }

  /** A change of the window itself. */
  lemma OwnChange(w: Window, first: bool, value: nat, stream: seq<Line>, changes: seq<Change>, c: Change)
    requires Holds(w, first, value, stream, changes) && c.window == w
    ensures Holds(w, false, c.newValue,
                  (if first then stream + [Line(0, c.oldValue)] else stream) + [Line(c.time, c.newValue)],
                  changes + [c])
  {
  }

  /** A change of the other window. */
  lemma OtherChange(w: Window, first: bool, value: nat, stream: seq<Line>, changes: seq<Change>, c: Change)
    requires Holds(w, first, value, stream, changes) && c.window != w
    ensures Holds(w, first, value, if first then stream else stream + [Line(c.time, value)], changes + [c])
  {
  }

  /** What the tracers keep for one window: the flags, the held values and the streams. */
  datatype Kept = Kept(first: map<nat, bool>, value: map<nat, nat>, stream: map<nat, seq<Line>>)

  /** For every traced node, the entries are what its changes so far ask for. */
  ghost predicate Describes(w: Window, kept: Kept, changes: map<nat, seq<Change>>) {
    forall n :: n in changes ==>
      n in kept.stream && Holds(w, At(kept.first, n, false), At(kept.value, n, 0), kept.stream[n], changes[n])
  }

  /** What a tracer does with the entries of its own window, and of the other one. */
  function Own(kept: Kept, n: nat, c: Change): Kept
    requires n in kept.stream
  {
    var first, lines := At(kept.first, n, false), kept.stream[n];
    Kept(if first then kept.first[n := false] else kept.first, kept.value[n := c.newValue],
         kept.stream[n := (if first then lines + [Line(0, c.oldValue)] else lines) + [Line(c.time, c.newValue)]])
  }

  function Other(kept: Kept, n: nat, c: Change): Kept
    requires n in kept.stream
  {
    if At(kept.first, n, false) then kept
    else kept.(stream := kept.stream[n := kept.stream[n] + [Line(c.time, At(kept.value, n, 0))]])
  }

  lemma NodeKept(w: Window, kept: Kept, changes: map<nat, seq<Change>>, n: nat)
    requires Describes(w, kept, changes) && n in changes
    ensures n in kept.stream
  {
  }

  lemma OwnNode(w: Window, kept: Kept, changes: map<nat, seq<Change>>, n: nat, c: Change)
    requires Describes(w, kept, changes) && n in changes && c.window == w
    ensures Describes(w, Own(kept, n, c), changes[n := changes[n] + [c]])
  {
    OwnChange(w, At(kept.first, n, false), At(kept.value, n, 0), kept.stream[n], changes[n], c);
    hide Holds;
  }

  lemma OtherNode(w: Window, kept: Kept, changes: map<nat, seq<Change>>, n: nat, c: Change)
    requires Describes(w, kept, changes) && n in changes && c.window != w
    ensures Describes(w, Other(kept, n, c), changes[n := changes[n] + [c]])
  {
    OtherChange(w, At(kept.first, n, false), At(kept.value, n, 0), kept.stream[n], changes[n], c);
    hide Holds;
  }

  /** One change more in the history of a node, seen from outside: once both windows have
      changed it is one line at the end of a stream; other nodes are not concerned. */
  lemma OneLine(w: Window, kept: Kept, changes: map<nat, seq<Change>>, n: nat, c: Change)
    requires Describes(w, kept, changes) && n in changes && n in kept.stream
    ensures var after := (if c.window == w then Own(kept, n, c) else Other(kept, n, c)).stream;
      && (forall m :: m in changes && m != n ==> m in kept.stream && m in after && after[m] == kept.stream[m])
      && n in after
      && (BothSeen(changes[n]) ==>
            after[n] == kept.stream[n] + [Line(c.time, if c.window == w then c.newValue else Newest(w, changes[n]))])
  {
    hide Stream, Seen, Newest;
    assert Holds(w, At(kept.first, n, false), At(kept.value, n, 0), kept.stream[n], changes[n]);
  }

  class Tracers {
    var firstCwnd: map<nat, bool>
    var firstSshThr: map<nat, bool>
    var cWndValue: map<nat, nat>
    var ssThreshValue: map<nat, nat>
    var cWndStream: map<nat, seq<Line>>
    var ssThreshStream: map<nat, seq<Line>>
    ghost var changes: map<nat, seq<Change>>

    constructor ()
      ensures Valid() && changes == map[]
    {
      firstCwnd, firstSshThr, cWndValue, ssThreshValue := map[], map[], map[], map[];
      cWndStream, ssThreshStream, changes := map[], map[], map[];
    }

    ghost function OfCwnd(): Kept
      reads this
    {
      Kept(firstCwnd, cWndValue, cWndStream)
    }

    ghost function OfSsThresh(): Kept
      reads this
    {
      Kept(firstSshThr, ssThreshValue, ssThreshStream)
    }

    /** For every traced node, both streams are what its changes so far ask for. */
    ghost predicate Valid()
      reads this
    {
      Describes(Cwnd, OfCwnd(), changes) && Describes(SsThresh, OfSsThresh(), changes)
    }

    /** What main does for the node of a flow before it connects the tracers. */
    method Trace(node: nat)
      requires Valid() && node !in changes
      modifies this
      ensures Valid() && changes == old(changes)[node := []]
    {
      hide Describes, Holds, Seen, Stream, Newest, At;
      StartNode(Cwnd, OfCwnd(), changes, node);
      StartNode(SsThresh, OfSsThresh(), changes, node);
      firstCwnd := firstCwnd[node := true];
      firstSshThr := firstSshThr[node := true];
      cWndStream := cWndStream[node := []];
      ssThreshStream := ssThreshStream[node := []];
      changes := changes[node := []];
    }

    /** CwndTracer, at time `now`: the change becomes part of the history of its node. Once both
        windows of the node have changed, each stream gets exactly one line, at `now`, with the
        newest value of its window; the streams of the other nodes stay what they were. */
    method CwndTracer(context: string, oldval: nat, newval: nat, now: nat)
      requires Valid()
      requires GetNodeIdFromContext(context).Id? && GetNodeIdFromContext(context).id in changes
      modifies this
      ensures Valid()
      ensures var n := GetNodeIdFromContext(context).id;
        changes == old(changes)[n := old(changes[n]) + [Change(Cwnd, now, oldval, newval)]]
      ensures var n := GetNodeIdFromContext(context).id;
        && n in cWndStream && n in ssThreshStream && n in old(cWndStream) && n in old(ssThreshStream)
        && (old(BothSeen(changes[n])) ==>
              && cWndStream[n] == old(cWndStream[n]) + [Line(now, newval)]
              && ssThreshStream[n] == old(ssThreshStream[n]) + [Line(now, old(Newest(SsThresh, changes[n])))])
      ensures forall m :: m in old(changes) && m != GetNodeIdFromContext(context).id ==>
        && m in cWndStream && m in ssThreshStream && m in old(cWndStream) && m in old(ssThreshStream)
        && cWndStream[m] == old(cWndStream[m]) && ssThreshStream[m] == old(ssThreshStream[m])
    {
      hide GetNodeIdFromContext, Describes, Holds, BothSeen, Newest, Seen, Stream, At;
      var nodeId := GetNodeIdFromContext(context).id;
      ghost var c := Change(Cwnd, now, oldval, newval);
      NodeKept(Cwnd, OfCwnd(), changes, nodeId);
      NodeKept(SsThresh, OfSsThresh(), changes, nodeId);
      OwnNode(Cwnd, OfCwnd(), changes, nodeId, c);
      OtherNode(SsThresh, OfSsThresh(), changes, nodeId, c);
      if At(firstCwnd, nodeId, false) {
        cWndStream := cWndStream[nodeId := cWndStream[nodeId] + [Line(0, oldval)]];
        firstCwnd := firstCwnd[nodeId := false];
      }
      cWndStream := cWndStream[nodeId := cWndStream[nodeId] + [Line(now, newval)]];
      cWndValue := cWndValue[nodeId := newval];
      if !At(firstSshThr, nodeId, false) {
        ssThreshStream := ssThreshStream[nodeId := ssThreshStream[nodeId] + [Line(now, At(ssThreshValue, nodeId, 0))]];
      }
      changes := changes[nodeId := changes[nodeId] + [c]];
      assert OfCwnd() == Own(old(OfCwnd()), nodeId, c) && OfSsThresh() == Other(old(OfSsThresh()), nodeId, c);
      OneLine(Cwnd, old(OfCwnd()), old(changes), nodeId, c);
      OneLine(SsThresh, old(OfSsThresh()), old(changes), nodeId, c);
    }

    /** SsThreshTracer, the mirror image. */
    method SsThreshTracer(context: string, oldval: nat, newval: nat, now: nat)
      requires Valid()
      requires GetNodeIdFromContext(context).Id? && GetNodeIdFromContext(context).id in changes
      modifies this
      ensures Valid()
      ensures var n := GetNodeIdFromContext(context).id;
        changes == old(changes)[n := old(changes[n]) + [Change(SsThresh, now, oldval, newval)]]
      ensures var n := GetNodeIdFromContext(context).id;
        && n in cWndStream && n in ssThreshStream && n in old(cWndStream) && n in old(ssThreshStream)
        && (old(BothSeen(changes[n])) ==>
              && ssThreshStream[n] == old(ssThreshStream[n]) + [Line(now, newval)]
              && cWndStream[n] == old(cWndStream[n]) + [Line(now, old(Newest(Cwnd, changes[n])))])
      ensures forall m :: m in old(changes) && m != GetNodeIdFromContext(context).id ==>
        && m in cWndStream && m in ssThreshStream && m in old(cWndStream) && m in old(ssThreshStream)
        && cWndStream[m] == old(cWndStream[m]) && ssThreshStream[m] == old(ssThreshStream[m])
    {
      hide GetNodeIdFromContext, Describes, Holds, BothSeen, Newest, Seen, Stream, At;
      var nodeId := GetNodeIdFromContext(context).id;
      ghost var c := Change(SsThresh, now, oldval, newval);
      NodeKept(Cwnd, OfCwnd(), changes, nodeId);
      NodeKept(SsThresh, OfSsThresh(), changes, nodeId);
      OwnNode(SsThresh, OfSsThresh(), changes, nodeId, c);
      OtherNode(Cwnd, OfCwnd(), changes, nodeId, c);
      if At(firstSshThr, nodeId, false) {
        ssThreshStream := ssThreshStream[nodeId := ssThreshStream[nodeId] + [Line(0, oldval)]];
        firstSshThr := firstSshThr[nodeId := false];
      }
      ssThreshStream := ssThreshStream[nodeId := ssThreshStream[nodeId] + [Line(now, newval)]];
      ssThreshValue := ssThreshValue[nodeId := newval];
      if !At(firstCwnd, nodeId, false) {
        cWndStream := cWndStream[nodeId := cWndStream[nodeId] + [Line(now, At(cWndValue, nodeId, 0))]];
      }
      changes := changes[nodeId := changes[nodeId] + [c]];
      assert OfSsThresh() == Own(old(OfSsThresh()), nodeId, c) && OfCwnd() == Other(old(OfCwnd()), nodeId, c);
      OneLine(SsThresh, old(OfSsThresh()), old(changes), nodeId, c);
      OneLine(Cwnd, old(OfCwnd()), old(changes), nodeId, c);
    }
  }

  lemma StartNode(w: Window, kept: Kept, changes: map<nat, seq<Change>>, node: nat)
    requires Describes(w, kept, changes) && node !in changes
    ensures Describes(w, Kept(kept.first[node := true], kept.value, kept.stream[node := []]), changes[node := []])
  {
    assert Holds(w, true, At(kept.value, node, 0), [], []);
    hide Holds;
  }
}
