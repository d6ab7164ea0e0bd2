/**
 * `generateSummary` and the heading `main` puts in front of it: one
 * Markdown list item per node, indented two spaces per level of depth.
 */
module Summary {
  import opened Search
  import opened Normalization
  import opened Scanner

  const Heading := "# Summary\n\n"

  datatype Option<T> = None | Some(value: T)

  /** `strings.Repeat("  ", depth)` for a depth Go accepts. */
  function Indent(depth: nat): (r: string)
    ensures |r| == 2 * depth
  {
    if depth == 0 then "" else "  " + Indent(depth - 1)
  }

  /** The indentation is made of spaces only. */
  lemma {:induction false} IndentSpaces(depth: nat)
    ensures forall i :: 0 <= i < |Indent(depth)| ==> Indent(depth)[i] == ' '
  {
    if depth > 0 {
      IndentSpaces(depth - 1);
    }
  }

  /** The line written for one node: indentation, then `- [name](local)` and a newline. */
  function Line(n: Node): string
    requires n.depth >= 0
  {
    Indent(n.depth) + "- [" + n.name + "](" + n.local + ")\n"
  }

  /** No node has a depth `strings.Repeat` refuses. */
  predicate Renderable(nodes: seq<Node>)
  {
    forall i :: 0 <= i < |nodes| ==> nodes[i].depth >= 0
  }

  /** The lines of all nodes, in order. */
  function Render(nodes: seq<Node>): string
    requires Renderable(nodes)
  {
    if nodes == [] then "" else Render(nodes[..|nodes| - 1]) + Line(nodes[|nodes| - 1])
  }

  /** How many newlines `s` holds. */
  function Newlines(s: string): nat
  {
    if s == [] then 0 else Newlines(s[..|s| - 1]) + (if s[|s| - 1] == '\n' then 1 else 0)
  }

  /** How many spaces `s` starts with. */
  function LeadingSpaces(s: string): (k: nat)
    ensures k <= |s|
    ensures forall i :: 0 <= i < k ==> s[i] == ' '
    ensures k == |s| || s[k] != ' '
  {
    if s != [] && s[0] == ' ' then 1 + LeadingSpaces(s[1..]) else 0
  }

  /** Reads `name](target)` and the newline that ends a list item. */
  function ReadItem(item: string): Option<(string, string)>
  {
    var close := Index(item, "](");
    if close == -1 then None
    else
      var after := item[close + 2..];
      var end := Index(after, ")\n");
      if end == -1 || end + 2 != |after| then None
      else Some((item[..close], after[..end]))
  }

  /**
   * Reads one summary line back: the depth from the indentation, then the
   * list item after `- [`.
   */
  function ReadLine(line: string): Option<Node>
  {
    var d := LeadingSpaces(line);
    var rest := line[d..];
    if d % 2 != 0 || |rest| < 3 || rest[..3] != "- [" then None
    else
      match ReadItem(rest[3..])
      case None => None
      case Some((name, local)) => Some(Node(name, local, d / 2))
  }

  /**
   * `generateSummary` (main.go lines 115-121): the builder receives, node by
   * node, the indentation and the list item; a negative depth makes
   * `strings.Repeat` panic.
   */
  method GenerateSummary(nodes: seq<Node>) returns (r: Outcome<string>)
    ensures Renderable(nodes) ==> r == Done(Render(nodes))
    ensures !Renderable(nodes) ==> r == Panic(NegativeRepeat)
  {
    var sb := "";
    for i := 0 to |nodes|
      invariant Renderable(nodes[..i])
      invariant sb == Render(nodes[..i])
    {
      var node := nodes[i];
      if node.depth < 0 {
        return Panic(NegativeRepeat);
      }
      assert nodes[..i + 1][..i] == nodes[..i];
      sb := sb + Indent(node.depth);
      sb := sb + "- [" + node.name + "](" + node.local + ")\n";
    }
    assert nodes[..|nodes|] == nodes;
    return Done(sb);
  }

  /** What the program writes to SUMMARY.md for a document, or the panic that stops it. */
  function SummaryDocument(content: string): Outcome<string>
  {
    match Parse(content)
    case Panic(reason) => Panic(reason)
    case Done(nodes) => if Renderable(nodes) then Done(Heading + Render(nodes)) else Panic(NegativeRepeat)
  }

  /** `parseHTML`, `generateSummary` and the heading of `main` (main.go lines 19, 25, 29). */
  method Summarize(content: string) returns (r: Outcome<string>)
    ensures r == SummaryDocument(content)
  {
    var parsed := ParseHtml(content);
    if parsed.Panic? {
      return Panic(parsed.reason);
    }
    var body := GenerateSummary(parsed.value);
    if body.Panic? {
      return body;
    }
    r := Done(Heading + body.value);
  }

  lemma {:induction false} NewlinesAppend(a: string, b: string)
    ensures Newlines(a + b) == Newlines(a) + Newlines(b)
    decreases |b|
  {
    if b == [] {
      assert a + b == a;
    } else {
      var init := b[..|b| - 1];
      assert a + b == (a + init) + [b[|b| - 1]];
      assert (a + b)[..|a + b| - 1] == a + init;
      NewlinesAppend(a, init);
    }
  }

  lemma {:induction false} NewlinesNone(s: string)
    requires '\n' !in s
    ensures Newlines(s) == 0
    decreases |s|
  {
    if s != [] {
      assert s[|s| - 1] in s;
      NewlinesNone(s[..|s| - 1]);
    }
  }

  /** A node whose name and target hold no newline takes exactly one line. */
  lemma LineIsOneLine(n: Node)
    requires n.depth >= 0
    requires '\n' !in n.name && '\n' !in n.local
    ensures Newlines(Line(n)) == 1
  {
    var ind := Indent(n.depth);
    IndentSpaces(n.depth);
    assert '\n' !in ind;
    var head := ind + "- [" + n.name + "](" + n.local + ")";
    assert Line(n) == head + "\n";
    NewlinesNone(head);
    NewlinesAppend(head, "\n");
  }

  /** The summary holds one line per node. */
  lemma {:induction false} RenderLines(nodes: seq<Node>)
    requires Renderable(nodes)
    requires forall i :: 0 <= i < |nodes| ==> '\n' !in nodes[i].name && '\n' !in nodes[i].local
    ensures Newlines(Render(nodes)) == |nodes|
    decreases |nodes|
  {
    if nodes != [] {
      var init := nodes[..|nodes| - 1];
      RenderLines(init);
      LineIsOneLine(nodes[|nodes| - 1]);
      NewlinesAppend(Render(init), Line(nodes[|nodes| - 1]));
    }
  }

  /** The list item of a name without `]` and a target without `)` reads back as both. */
  lemma ReadItemInverse(name: string, local: string)
    requires ']' !in name && ')' !in local
    ensures ReadItem(name + "](" + local + ")\n") == Some((name, local))
  {
    var after := local + ")\n";
    var item := name + "](" + after;
    assert name + "](" + local + ")\n" == item;
    FirstAfter(name, "](", after, ']');
    assert item[|name| + 2..] == after && item[..|name|] == name;
    assert after == local + ")\n" + "";
    FirstAfter(local, ")\n", "", ')');
    assert after[..|local|] == local;
  }

  /** Reading a line back recovers the node, when its name holds no `]` and its target no `)`. */
  lemma ReadLineInverse(n: Node)
    requires n.depth >= 0
    requires ']' !in n.name && ')' !in n.local
    ensures ReadLine(Line(n)) == Some(n)
  {
    var line := Line(n);
    var ind := Indent(n.depth);
    var item := n.name + "](" + n.local + ")\n";
    var rest := "- [" + item;
    assert line == ind + rest;
    IndentSpaces(n.depth);
    LeadingSpacesPrefix(ind, rest);
    assert |ind| % 2 == 0 && |ind| / 2 == n.depth;
    assert line[|ind|..] == rest;
    assert rest[..3] == "- [" && rest[3..] == item;
    ReadItemInverse(n.name, n.local);
  }

  /** Spaces followed by a text that does not start with a space: the count is exact. */
  lemma {:induction false} LeadingSpacesPrefix(spaces: string, rest: string)
    requires forall i :: 0 <= i < |spaces| ==> spaces[i] == ' '
    requires |rest| > 0 && rest[0] != ' '
    ensures LeadingSpaces(spaces + rest) == |spaces|
    decreases |spaces|
  {
    if spaces != [] {
      assert (spaces + rest)[1..] == spaces[1..] + rest;
      LeadingSpacesPrefix(spaces[1..], rest);
    } else {
      assert spaces + rest == rest;
    }
  }

  /** A marker that starts with a character `text` lacks is first found right after `text`. */
  lemma FirstAfter(text: string, marker: string, tail: string, c: char)
    requires |marker| > 0 && marker[0] == c && c !in text
    ensures Index(text + marker + tail, marker) == |text|
  {
    var s := text + marker + tail;
    assert s[|text|..|text| + |marker|] == marker;
    forall k | 0 <= k < |text|
      ensures !OccursAt(s, marker, k)
    {
      assert s[k] == text[k];
    }
    IndexIsFirst(s, marker, |text|);
  }

  /** A document in which normalisation leaves no marker gives the bare heading. */
  lemma NoMarkersBareHeading(content: string)
    requires var text := Normalize(content);
      !Found(text, UlOpen) && !Found(text, UlClose) && !Found(text, ObjectOpen)
    ensures SummaryDocument(content) == Done(Heading)
  {
    var text := Normalize(content);
    IndexMissing(text, UlOpen);
    IndexMissing(text, UlClose);
    IndexMissing(text, ObjectOpen);
    assert text[0..] == text;
    assert ScanStep(text, 0) == Stop;
    assert Scan(text, 0) == Trace([], false);
    assert Heading + Render([]) == Heading;
  }

  /**
   * A successful run writes the heading and then exactly one line per node:
   * after normalisation no name or target can hold a newline.
   */
  lemma SummaryLines(content: string)
    ensures SummaryDocument(content).Done? ==>
              && Parse(content).Done?
              && var s := SummaryDocument(content).value;
                 |Heading| <= |s| && s[..|Heading|] == Heading &&
                 Newlines(s[|Heading|..]) == |Parse(content).value|
  {
    if SummaryDocument(content).Done? {
      var nodes := Parse(content).value;
      ParseNodesNormal(content);
      forall i | 0 <= i < |nodes|
        ensures '\n' !in nodes[i].name && '\n' !in nodes[i].local
      {
        var n := nodes[i];
        assert n in nodes;
      }
      RenderLines(nodes);
      var s := Heading + Render(nodes);
      assert s[|Heading|..] == Render(nodes);
    }
  }
}
