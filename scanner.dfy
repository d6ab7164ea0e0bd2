/**
 * The scan loop of `parseHTML`: one left-to-right pass over the normalised
 * document that tracks list nesting and collects one node per object block
 * carrying both a `name` and a `local` parameter.
 *
 * `ScanStep` is one iteration of the loop as a function of the cursor,
 * `Scan` the sequence of branches the loop takes, and `NodesOf` the nodes
 * those branches produce. `Run` is the loop as a state machine over cursor,
 * depth and nodes, and is shown to agree with `Scan` and `NodesOf`; the
 * method `Iterate` is one pass of the loop body and `ParseHtml` the loop
 * itself, proved to return `Parse`.
 */
module Scanner {
  import opened Search
  import opened Normalization
  import opened Params

  const UlOpen := "<ul>"
  const UlClose := "</ul>"
  /** Deliberately without `>`, so that the tag may carry attributes. */
  const ObjectOpen := "<object"
  const ObjectClose := "</object>"

  /** One table-of-contents entry (`Node` in main.go). */
  datatype Node = Node(name: string, local: string, depth: int)

  /** Why the Go program panics instead of finishing. */
  datatype PanicReason =
    | SliceBounds      // htmlContent[pos+startObject : endObject] with bounds out of order or range
    | NegativeRepeat   // strings.Repeat with a negative count

  datatype Outcome<T> = Done(value: T) | Panic(reason: PanicReason)

  /** What one iteration of the scan loop does. */
  datatype Move =
    | Stop                                  // break out of the loop
    | Fault                                 // the object-block slice panics
    | EnterList(next: nat)                  // `<ul>` branch
    | LeaveList(next: nat)                  // `</ul>` branch
    | TakeObject(from: nat, next: nat)      // object branch; the block is text[from..next]

  /** The `<ul>` branch's condition: a `<ul>` comes before every `</ul>` and every `<object`. */
  ghost predicate EntersList(rest: string)
  {
    Precedes(rest, UlOpen, UlClose) && Precedes(rest, UlOpen, ObjectOpen)
  }

  /** The `</ul>` branch's condition: a `</ul>` comes before every `<ul>`; `<object` is not consulted. */
  ghost predicate LeavesList(rest: string)
  {
    Precedes(rest, UlClose, UlOpen)
  }

  /** The first occurrences of no two of the three markers start at the same index. */
  lemma FirstMarkersNeverTie(s: string)
    ensures Index(s, UlOpen) == -1 || Index(s, UlOpen) != Index(s, UlClose)
    ensures Index(s, UlOpen) == -1 || Index(s, UlOpen) != Index(s, ObjectOpen)
    ensures Index(s, UlClose) == -1 || Index(s, UlClose) != Index(s, ObjectOpen)
  {
    if Index(s, UlOpen) != -1 {
      IndexFound(s, UlOpen);
      MarkersNeverTie(s, Index(s, UlOpen));
    }
    if Index(s, UlClose) != -1 {
      IndexFound(s, UlClose);
      MarkersNeverTie(s, Index(s, UlClose));
    }
  }

  /** No two of the three markers start at the same index. */
  lemma MarkersNeverTie(s: string, i: int)
    ensures !(OccursAt(s, UlOpen, i) && OccursAt(s, UlClose, i))
    ensures !(OccursAt(s, UlOpen, i) && OccursAt(s, ObjectOpen, i))
    ensures !(OccursAt(s, UlClose, i) && OccursAt(s, ObjectOpen, i))
  {
    if 0 <= i && i + 2 <= |s| {
      if OccursAt(s, UlOpen, i) {
        assert s[i..i + 4][1] == s[i + 1] == 'u';
      }
      if OccursAt(s, UlClose, i) {
        assert s[i..i + 5][1] == s[i + 1] == '/';
      }
      if OccursAt(s, ObjectOpen, i) {
        assert s[i..i + 7][1] == s[i + 1] == 'o';
      }
    }
  }

  /**
   * The order in which the loop tests its two list branches does not matter:
   * their conditions never hold together, and when some list marker is left
   * one of them holds or an object marker comes first.
   */
  lemma ListBranchesExclusive(rest: string)
    ensures !(EntersList(rest) && LeavesList(rest))
    ensures Found(rest, UlOpen) || Found(rest, UlClose) ==>
              EntersList(rest) || LeavesList(rest) || Precedes(rest, ObjectOpen, UlOpen)
  {
    PrecedesByIndex(rest, UlOpen, UlClose);
    PrecedesByIndex(rest, UlOpen, ObjectOpen);
    PrecedesByIndex(rest, UlClose, UlOpen);
    PrecedesByIndex(rest, ObjectOpen, UlOpen);
    IndexFirst(rest, UlOpen);
    IndexFirst(rest, UlClose);
    FirstMarkersNeverTie(rest);
  }

  /**
   * The branch the loop body picks from the four `strings.Index` results,
   * all relative to the cursor, compared as main.go lines 68-94 compare them
   * (including the test `endObject == -1`, which can never fire).
   */
  function Choose(pos: nat, len: nat, startUL: int, endUL: int, startObject: int, closeAt: int): Move
    requires startUL >= -1 && endUL >= -1 && startObject >= -1 && closeAt >= -1
    requires startUL == -1 || startUL != endUL
  {
    if startUL == -1 && endUL == -1 && startObject == -1 then
      Stop
    else if startUL != -1 && (startUL < endUL || endUL == -1) && (startUL < startObject || startObject == -1) then
      EnterList(pos + startUL + |UlOpen|)
    else if endUL != -1 && (endUL < startUL || startUL == -1) then
      LeaveList(pos + endUL + |UlClose|)
    else if startObject != -1 then
      var endObject := closeAt + pos + |ObjectClose|;
      if endObject == -1 then
        Stop
      else if pos + startObject <= endObject <= len then
        TakeObject(pos + startObject, endObject)
      else
        Fault
    else
      assert false;
      Stop
  }

  /** One iteration of the loop at cursor `pos` (main.go lines 64-94). */
  function ScanStep(text: string, pos: nat): (m: Move)
    requires pos <= |text|
    ensures !m.Stop? && !m.Fault? ==> pos < m.next <= |text|
    ensures m.TakeObject? ==> pos <= m.from <= m.next
  {
    var rest := text[pos..];
    FirstMarkersNeverTie(rest);
    Choose(pos, |text|, Index(rest, UlOpen), Index(rest, UlClose), Index(rest, ObjectOpen), Index(rest, ObjectClose))
  }

  /**
   * Which branch the loop takes: it stops exactly when no marker is left;
   * the `<ul>` branch fires when a `<ul>` comes first; the `</ul>` branch
   * fires whenever a `</ul>` comes before every `<ul>`, wherever the next
   * `<object` is; an object block is taken only when neither list branch
   * applies.
   */
  lemma ScanStepBranches(text: string, pos: nat)
    requires pos <= |text|
    ensures ScanStep(text, pos).Stop? <==>
              !Found(text[pos..], UlOpen) && !Found(text[pos..], UlClose) && !Found(text[pos..], ObjectOpen)
    ensures ScanStep(text, pos).EnterList? <==> EntersList(text[pos..])
    ensures ScanStep(text, pos).LeaveList? <==> LeavesList(text[pos..])
    ensures ScanStep(text, pos).TakeObject? || ScanStep(text, pos).Fault? <==>
              Found(text[pos..], ObjectOpen) && !EntersList(text[pos..]) && !LeavesList(text[pos..])
  {
    var rest := text[pos..];
    FirstMarkersNeverTie(rest);
    IndexFirst(rest, UlOpen);
    IndexFirst(rest, UlClose);
    IndexFirst(rest, ObjectOpen);
    assert Index(rest, ObjectClose) >= -1;
    PrecedesByIndex(rest, UlOpen, UlClose);
    PrecedesByIndex(rest, UlOpen, ObjectOpen);
    PrecedesByIndex(rest, UlClose, UlOpen);
  }

  /**
   * When the first `</object>` after the cursor is `c` characters on, the
   * block ends right after it; the slice panics when that end lies before
   * the `<object` marker.
   */
  lemma ObjectBlockClosed(text: string, pos: nat, o: int, c: int)
    requires pos <= |text|
    requires !EntersList(text[pos..]) && !LeavesList(text[pos..])
    requires FirstAt(text[pos..], ObjectOpen, o) && FirstAt(text[pos..], ObjectClose, c)
    ensures ScanStep(text, pos) ==
              if o <= c + |ObjectClose| then TakeObject(pos + o, pos + c + |ObjectClose|)
              else Fault
  {
    var rest := text[pos..];
    IndexIsFirst(rest, ObjectOpen, o);
    IndexIsFirst(rest, ObjectClose, c);
    FirstMarkersNeverTie(rest);
    PrecedesByIndex(rest, UlOpen, UlClose);
    PrecedesByIndex(rest, UlOpen, ObjectOpen);
    PrecedesByIndex(rest, UlClose, UlOpen);
  }

  /**
   * When no `</object>` follows the cursor, the `endObject == -1` test does
   * not fire: the block is cut at `pos + 8`, or the slice panics.
   */
  lemma ObjectBlockUnclosed(text: string, pos: nat, o: int)
    requires pos <= |text|
    requires !EntersList(text[pos..]) && !LeavesList(text[pos..])
    requires FirstAt(text[pos..], ObjectOpen, o) && !Found(text[pos..], ObjectClose)
    ensures ScanStep(text, pos) ==
              if o <= 8 && pos + 8 <= |text| then TakeObject(pos + o, pos + 8)
              else Fault
  {
    var rest := text[pos..];
    IndexIsFirst(rest, ObjectOpen, o);
    IndexFirst(rest, ObjectClose);
    FirstMarkersNeverTie(rest);
    PrecedesByIndex(rest, UlOpen, UlClose);
    PrecedesByIndex(rest, UlOpen, ObjectOpen);
    PrecedesByIndex(rest, UlClose, UlOpen);
  }

  /** What the loop did at one iteration. */
  datatype Event = Entered | Left | Block(content: string)

  /** The iterations the loop runs from some cursor on, and whether it ends in a panic. */
  datatype Trace = Trace(events: seq<Event>, faulted: bool)

  function Prepend(e: Event, t: Trace): Trace
  {
    Trace([e] + t.events, t.faulted)
  }

  /** The event of a step that moves the cursor. */
  function EventAt(text: string, pos: nat): Event
    requires pos <= |text|
    requires !ScanStep(text, pos).Stop? && !ScanStep(text, pos).Fault?
  {
    match ScanStep(text, pos)
    case EnterList(_) => Entered
    case LeaveList(_) => Left
    case TakeObject(from, next) => Block(text[from..next])
  }

  /**
   * The loop from cursor `pos` on. It runs at most one iteration per
   * remaining character.
   */
  function Scan(text: string, pos: nat): (t: Trace)
    requires pos <= |text|
    ensures |t.events| <= |text| - pos
    decreases |text| - pos
  {
    var m := ScanStep(text, pos);
    if m.Stop? then Trace([], false)
    else if m.Fault? then Trace([], true)
    else Prepend(EventAt(text, pos), Scan(text, m.next))
  }

  /** How many times `e` occurs in `evts`. */
  function Count(evts: seq<Event>, e: Event): nat
  {
    if evts == [] then 0
    else Count(evts[..|evts| - 1], e) + (if evts[|evts| - 1] == e then 1 else 0)
  }

  /** `<ul>` branches taken minus `</ul>` branches taken. */
  function Net(evts: seq<Event>): int
  {
    Count(evts, Entered) - Count(evts, Left)
  }

  /** How an event moves the list depth. */
  function Shift(e: Event): int
  {
    match e
    case Entered => 1
    case Left => -1
    case Block(_) => 0
  }

  /** The nodes an event yields at a given depth: only object blocks yield any. */
  function Yield(e: Event, depth: int): seq<Node>
  {
    match e
    case Block(b) => NodeFor(b, depth)
    case _ => []
  }

  /** The node an object block yields at a given depth: none unless both parameters are non-empty. */
  function NodeFor(block: string, depth: int): seq<Node>
  {
    var name := ExtractParam(block, "name");
    var local := ExtractParam(block, "local");
    if name != "" && local != "" then [Node(name, local, depth)] else []
  }

  /**
   * The nodes a run of the loop collects, in scan order: one per object
   * block with both parameters, at the depth reached by the events before it.
   */
  function NodesOf(evts: seq<Event>): (ns: seq<Node>)
    ensures |ns| <= |evts|
    ensures forall i :: 0 <= i < |ns| ==> ns[i].name != "" && ns[i].local != ""
  {
    if evts == [] then []
    else
      var prefix := evts[..|evts| - 1];
      NodesOf(prefix) + Yield(evts[|evts| - 1], Net(prefix))
  }

  /** What `parseHTML` returns for a document's contents. */
  function Parse(content: string): Outcome<seq<Node>>
  {
    var t := Scan(Normalize(content), 0);
    if t.faulted then Panic(SliceBounds) else Done(NodesOf(t.events))
  }

  lemma NetSnoc(evts: seq<Event>, e: Event)
    ensures Net(evts + [e]) == Net(evts) + Shift(e)
  {
    assert (evts + [e])[..|evts|] == evts;
  }

  lemma NodesOfSnoc(evts: seq<Event>, e: Event)
    ensures NodesOf(evts + [e]) == NodesOf(evts) + Yield(e, Net(evts))
  {
    assert (evts + [e])[..|evts|] == evts;
  }

  /**
   * Nodes are only ever appended: the nodes of a run's first events are a
   * prefix of the nodes of the whole run.
   */
  lemma {:induction false} NodesOfPrefix(a: seq<Event>, b: seq<Event>)
    ensures NodesOf(a) <= NodesOf(a + b)
    decreases |b|
  {
    if b == [] {
      assert a + b == a;
    } else {
      var init, last := b[..|b| - 1], b[|b| - 1];
      assert b == init + [last];
      assert a + b == (a + init) + [last];
      NodesOfPrefix(a, init);
      NodesOfSnoc(a + init, last);
    }
  }

  /**
   * Once no `<ul>` is left after the cursor, the loop jumps straight past
   * the first `</ul>` in one `</ul>` step: whatever object blocks lie
   * before it are never cut out, so they yield no node.
   */
  lemma CloseSkipsObjects(text: string, pos: nat, c: int)
    requires pos <= |text|
    requires !Found(text[pos..], UlOpen)
    requires FirstAt(text[pos..], UlClose, c)
    ensures ScanStep(text, pos) == LeaveList(pos + c + |UlClose|)
  {
    var rest := text[pos..];
    IndexIsFirst(rest, UlClose, c);
    IndexMissing(rest, UlOpen);
  }

  /** A text that starts with `<ul>` enters a list first. */
  lemma OpeningListFirst(text: string)
    requires OccursAt(text, UlOpen, 0)
    ensures ScanStep(text, 0) == EnterList(|UlOpen|)
  {
    assert text[0..] == text;
    IndexIsFirst(text, UlOpen, 0);
    FirstMarkersNeverTie(text);
    MarkersNeverTie(text, 0);
    IndexFirst(text, ObjectOpen);
  }

  /** At the end of the text the loop stops. */
  lemma StopsAtEnd(text: string)
    ensures ScanStep(text, |text|) == Stop
  {
    var rest := text[|text|..];
    IndexMissing(rest, UlOpen);
    IndexMissing(rest, UlClose);
    IndexMissing(rest, ObjectOpen);
  }

  /** The loop over `<ul>body</ul>`, with no other list marker in it: one `<ul>` step, one `</ul>` step. */
  lemma LoneListTrace(text: string, body: string)
    requires text == UlOpen + body + UlClose
    requires !Found(body + UlClose, UlOpen) && FirstAt(body + UlClose, UlClose, |body|)
    ensures Scan(text, 0) == Trace([Entered, Left], false)
  {
    assert text[..4] == UlOpen;
    OpeningListFirst(text);
    assert text[4..] == body + UlClose;
    CloseSkipsObjects(text, 4, |body|);
    StopsAtEnd(text);
    assert Scan(text, |text|) == Trace([], false);
    assert Scan(text, 4) == Trace([Left], false);
  }

  /**
   * A document that normalises to one list `<ul>body</ul>`, with no other
   * list marker in it, yields no node at all: the object blocks of `body`,
   * however complete, are skipped by the `</ul>` step.
   */
  lemma LoneListYieldsNothing(content: string, body: string)
    requires Normalize(content) == UlOpen + body + UlClose
    requires !Found(body + UlClose, UlOpen) && FirstAt(body + UlClose, UlClose, |body|)
    ensures Parse(content) == Done([])
  {
    LoneListTrace(Normalize(content), body);
    assert [Entered, Left][..1] == [Entered];
  }

  /** Every character of `a` occurs in `b`, which is normalised: so is `a`. */
  lemma NormalWithin(a: string, b: string)
    requires IsNormal(b)
    requires forall x :: x in a ==> x in b
    ensures IsNormal(a)
  {
    forall i | 0 <= i < |a|
      ensures !IsBlank(a[i]) && !IsUpper(a[i])
    {
      assert a[i] in a;
      var j :| 0 <= j < |b| && b[j] == a[i];
    }
  }

  /** Every object block the loop cuts from a normalised text is normalised. */
  lemma {:induction false} ScanBlocksNormal(text: string, pos: nat)
    requires pos <= |text| && IsNormal(text)
    ensures forall e :: e in Scan(text, pos).events && e.Block? ==> IsNormal(e.content)
    decreases |text| - pos
  {
    var m := ScanStep(text, pos);
    if !m.Stop? && !m.Fault? {
      var e := EventAt(text, pos);
      var later := Scan(text, m.next);
      assert Scan(text, pos).events == [e] + later.events;
      if m.TakeObject? {
        assert forall i :: 0 <= i < |e.content| ==> e.content[i] == text[m.from + i];
      }
      ScanBlocksNormal(text, m.next);
    }
  }

  /** Nodes cut from normalised blocks have normalised, quote-free names and targets. */
  lemma {:induction false} NodesOfNormal(evts: seq<Event>)
    requires forall e :: e in evts && e.Block? ==> IsNormal(e.content)
    ensures forall n :: n in NodesOf(evts) ==>
              IsNormal(n.name) && IsNormal(n.local) && '"' !in n.name && '"' !in n.local
    decreases |evts|
  {
    if evts != [] {
      var prefix, last := evts[..|evts| - 1], evts[|evts| - 1];
      assert evts == prefix + [last];
      NodesOfNormal(prefix);
      NodesOfSnoc(prefix, last);
      if last.Block? {
        NormalWithin(ExtractParam(last.content, "name"), last.content);
        NormalWithin(ExtractParam(last.content, "local"), last.content);
      }
    }
  }

  /**
   * The normalisation reaches the output: every node's name and target are
   * lower-case, free of blanks and free of quotes.
   */
  lemma ParseNodesNormal(content: string)
    ensures Parse(content).Done? ==>
              forall n :: n in Parse(content).value ==>
                IsNormal(n.name) && IsNormal(n.local) && '"' !in n.name && '"' !in n.local
  {
    var text := Normalize(content);
    ScanBlocksNormal(text, 0);
    NodesOfNormal(Scan(text, 0).events);
  }

  /**
   * The loop itself as a state machine: what it returns from cursor `pos`
   * with list depth `depth` and the nodes collected so far.
   */
  function Run(text: string, pos: nat, depth: int, nodes: seq<Node>): Outcome<seq<Node>>
    requires pos <= |text|
    decreases |text| - pos
  {
    match ScanStep(text, pos)
    case Stop => Done(nodes)
    case Fault => Panic(SliceBounds)
    case EnterList(next) => Run(text, next, depth + 1, nodes)
    case LeaveList(next) => Run(text, next, depth - 1, nodes)
    case TakeObject(from, next) => Run(text, next, depth, nodes + NodeFor(text[from..next], depth))
  }

  /**
   * One iteration of `Run`: the loop goes on from the next cursor with any
   * state that moves the depth by the event's shift and appends the nodes
   * it yields.
   */
  lemma RunStep(text: string, pos: nat, depth: int, nodes: seq<Node>, depth': int, nodes': seq<Node>)
    requires pos <= |text| && !ScanStep(text, pos).Stop? && !ScanStep(text, pos).Fault?
    requires depth' == depth + Shift(EventAt(text, pos))
    requires nodes' == nodes + Yield(EventAt(text, pos), depth)
    ensures Run(text, pos, depth, nodes) == Run(text, ScanStep(text, pos).next, depth', nodes')
  {
    var m := ScanStep(text, pos);
    if m.EnterList? {
      assert EventAt(text, pos) == Entered;
      assert nodes' == nodes;
    } else if m.LeaveList? {
      assert EventAt(text, pos) == Left;
      assert nodes' == nodes;
    } else {
      assert EventAt(text, pos) == Block(text[m.from..m.next]);
    }
  }

  /**
   * One iteration keeps the loop's state in step with the events: from the
   * depth and nodes of the events `pre`, it reaches the depth and nodes of
   * `pre` followed by this iteration's event.
   */
  lemma StepFollowsEvent(text: string, pos: nat, pre: seq<Event>, depth: int, nodes: seq<Node>)
    requires pos <= |text| && !ScanStep(text, pos).Stop? && !ScanStep(text, pos).Fault?
    requires depth == Net(pre) && nodes == NodesOf(pre)
    ensures var e := EventAt(text, pos);
      Run(text, pos, depth, nodes) == Run(text, ScanStep(text, pos).next, Net(pre + [e]), NodesOf(pre + [e]))
  {
    var e := EventAt(text, pos);
    NetSnoc(pre, e);
    NodesOfSnoc(pre, e);
    RunStep(text, pos, depth, nodes, Net(pre + [e]), NodesOf(pre + [e]));
  }

  /**
   * Running the loop after the events `pre` gives the nodes of `pre`
   * followed by those of the rest of the trace, provided the loop's `depth`
   * is the net number of lists entered in `pre` and its node list the nodes
   * of `pre`; both stay so, step by step.
   */
  lemma {:induction false} RunFollowsScan(text: string, pos: nat, pre: seq<Event>, depth: int, nodes: seq<Node>)
    requires pos <= |text|
    requires depth == Net(pre) && nodes == NodesOf(pre)
    ensures Run(text, pos, depth, nodes) ==
              if Scan(text, pos).faulted then Panic(SliceBounds) else Done(NodesOf(pre + Scan(text, pos).events))
    decreases |text| - pos
  {
    var m := ScanStep(text, pos);
    if m.Stop? {
      assert pre + [] == pre;
      assert Scan(text, pos) == Trace([], false);
    } else if m.Fault? {
      assert Scan(text, pos) == Trace([], true);
    } else {
      var e := EventAt(text, pos);
      var later := Scan(text, m.next);
      assert Scan(text, pos) == Prepend(e, later);
      assert pre + ([e] + later.events) == (pre + [e]) + later.events;
      StepFollowsEvent(text, pos, pre, depth, nodes);
      RunFollowsScan(text, m.next, pre + [e], Net(pre + [e]), NodesOf(pre + [e]));
    }
  }

  /** `Parse` is what the loop returns from its initial state. */
  lemma ParseIsRun(content: string)
    ensures Parse(content) == Run(Normalize(content), 0, 0, [])
  {
    var text := Normalize(content);
    assert [] + Scan(text, 0).events == Scan(text, 0).events;
    RunFollowsScan(text, 0, [], 0, []);
  }

  /** One pass of the body of the scan loop (main.go lines 64-94) at cursor `pos`. */
  method Iterate(text: string, pos: nat, depth: int, nodes: seq<Node>) returns (m: Move, depth': int, nodes': seq<Node>)
    requires pos <= |text|
    ensures m == ScanStep(text, pos)
    ensures m.EnterList? ==> depth' == depth + 1 && nodes' == nodes
    ensures m.LeaveList? ==> depth' == depth - 1 && nodes' == nodes
    ensures m.TakeObject? ==> depth' == depth && nodes' == nodes + NodeFor(text[m.from..m.next], depth)
    ensures m.Stop? || m.Fault? ==> depth' == depth && nodes' == nodes
  {
    depth', nodes' := depth, nodes;
    var rest := text[pos..];
    var startUL := Index(rest, UlOpen);
    var endUL := Index(rest, UlClose);
    var startObject := Index(rest, ObjectOpen);
    FirstMarkersNeverTie(rest);
    ghost var step := ScanStep(text, pos);
    assert step == Choose(pos, |text|, startUL, endUL, startObject, Index(rest, ObjectClose));
    if startUL == -1 && endUL == -1 && startObject == -1 {
      return Stop, depth', nodes';
    }
    if startUL != -1 && (startUL < endUL || endUL == -1) && (startUL < startObject || startObject == -1) {
      depth' := depth + 1;
      m := EnterList(pos + startUL + |UlOpen|);
    } else if endUL != -1 && (endUL < startUL || startUL == -1) {
      depth' := depth - 1;
      m := LeaveList(pos + endUL + |UlClose|);
    } else if startObject != -1 {
      var endObject := Index(rest, ObjectClose) + pos + |ObjectClose|;
      if endObject == -1 {
        return Stop, depth', nodes';
      }
      if !(pos + startObject <= endObject <= |text|) {
        return Fault, depth', nodes';
      }
      var objectContent := text[pos + startObject..endObject];
      m := TakeObject(pos + startObject, endObject);
      var name := ExtractParam(objectContent, "name");
      var local := ExtractParam(objectContent, "local");
      if name != "" && local != "" {
        nodes' := nodes + [Node(name, local, depth)];
      }
      assert text[m.from..m.next] == objectContent;
      assert nodes' == nodes + NodeFor(objectContent, depth);
    } else {
      assert false;
    }
  }

  /**
   * `parseHTML` after the file is read (main.go lines 53-97): normalise the
   * text, then run the loop from cursor 0, depth 0 and no nodes.
   */
  method ParseHtml(content: string) returns (r: Outcome<seq<Node>>)
    ensures r == Parse(content)
  {
    ParseIsRun(content);
    var text := Normalize(content);
    var nodes: seq<Node> := [];
    var depth := 0;
    var pos: nat := 0;
    while true
      invariant pos <= |text|
      invariant Run(text, pos, depth, nodes) == Run(text, 0, 0, [])
      decreases |text| - pos
    {
      var m, nextDepth, nextNodes := Iterate(text, pos, depth, nodes);
      if m.Stop? {
        break;
      } else if m.Fault? {
        return Panic(SliceBounds);
      }
      pos, depth, nodes := m.next, nextDepth, nextNodes;
    }
    r := Done(nodes);
  }
}
