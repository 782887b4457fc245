/**
 * load_nodes, after the file has been read: every line is stripped; a line
 * starting with '[' is a header that creates a node at the coordinates read
 * from it, and every other non-blank line is appended to the newest node.
 * Load is the same pass on values (one Block per node); LoadNodes builds the
 * Node objects and is proved to agree with it.
 */
module Loader {
  import opened Options
  import opened Text
  import opened Nodes

  /** One node as load_nodes sets it up: its coordinates and its source lines. */
  datatype Block = Block(x: int, y: int, lines: seq<string>)

  /** Why load_nodes raises: a body line before any header, or a header int() or indexing rejects. */
  datatype LoadError = BodyBeforeHeader(line: string) | BadHeader(line: string)

  /** line.startswith("[") */
  predicate IsHeader(line: string) {
    |line| > 0 && line[0] == '['
  }

  /** int() of a single character: its value when it is an ASCII digit, an error otherwise. */
  lemma CharInt(c: char)
    ensures ParseInt([c]) == if IsDigit(c) then Some(DigitValue(c)) else None
  {
    if IsDigit(c) {
      assert TrimLeft(IntSpaces, [c]) == [c];
      assert TrimRight(IntSpaces, [c]) == [c];
      assert AllDigits([c]);
      assert [c][..0] == [];
      assert DecimalValue([c]) == DigitValue(c);
    } else if IsIntSpace(c) {
      assert TrimLeft(IntSpaces, [c]) == TrimLeft(IntSpaces, []);
    } else if c == '+' || c == '-' {
      assert TrimLeft(IntSpaces, [c]) == [c];
      assert TrimRight(IntSpaces, [c]) == [c];
    } else {
      ParseIntRejects([c], 0);
    }
  }

  /**
   * The coordinates of a header: spaces removed, then the second and fourth
   * characters, each read as a digit; None when temp is too short or either
   * character is not a digit. So a coordinate is always one digit.
   */
  function HeaderCoords(line: string): (r: Option<(int, int)>)
    ensures r.Some? ==> 0 <= r.value.0 < 10 && 0 <= r.value.1 < 10
  {
    var temp := Without(line, ' ');
    if |temp| < 4 || !IsDigit(temp[1]) || !IsDigit(temp[3]) then None
    else Some((DigitValue(temp[1]), DigitValue(temp[3])))
  }

  /** HeaderCoords is int(temp[1]) and int(temp[3]), where either int() or the indexing may raise. */
  lemma HeaderCoordsInt(line: string)
    ensures var temp := Without(line, ' ');
      HeaderCoords(line) ==
        if |temp| < 4 then None
        else match (ParseInt([temp[1]]), ParseInt([temp[3]]))
          case (Some(x), Some(y)) => Some((x, y))
          case _ => None
  {
    var temp := Without(line, ' ');
    if |temp| >= 4 {
      CharInt(temp[1]);
      CharInt(temp[3]);
    }
  }

  /** A two-digit y is cut to its first digit: the header [1,10] puts its node at (1, 1). */
  lemma TwoDigitYHeader()
    ensures HeaderCoords("[1,10]") == Some((1, 1))
  {
    var temp := Without("[1,10]", ' ');
    assert temp == "[1,10]";
    assert temp[1] == '1' && temp[3] == '1';
  }

  /** A two-digit x puts the comma where the second coordinate is read: the header [10,2] is rejected. */
  lemma TwoDigitXHeader()
    ensures HeaderCoords("[10,2]") == None
  {
    var temp := Without("[10,2]", ' ');
    assert temp == "[10,2]";
    assert temp[3] == ',';
  }

  /** One pass of the loop on values: what one stripped line does to the nodes built so far. */
  function Feed(bs: seq<Block>, line: string): Result<seq<Block>, LoadError> {
    if IsHeader(line) then
      match HeaderCoords(line)
      case None => Failure(BadHeader(line))
      case Some((x, y)) => Success(bs + [Block(x, y, [])])
    else if line != "" then
      if bs == [] then Failure(BodyBeforeHeader(line))
      else
        var b := bs[|bs| - 1];
        Success(bs[..|bs| - 1] + [b.(lines := b.lines + [line])])
    else Success(bs)
  }

  /** The nodes load_nodes returns for the lines, or the error it raises at the first bad line. */
  function Load(content: seq<string>): Result<seq<Block>, LoadError>
  {
    if content == [] then Success([])
    else
      match Load(content[..|content| - 1])
      case Failure(e) => Failure(e)
      case Success(bs) => Feed(bs, Strip(content[|content| - 1]))
  }

  /** Once a line has raised, later lines change nothing: the error is the one of the first bad line. */
  lemma {:induction false} LoadFailureSticks(content: seq<string>, k: nat)
    requires k <= |content| && Load(content[..k]).Failure?
    ensures Load(content) == Load(content[..k])
    decreases |content| - k
  {
    if k < |content| {
      assert content[..k + 1][..k] == content[..k];
      LoadFailureSticks(content, k + 1);
    } else {
      assert content[..k] == content;
    }
  }

  /** Every loaded node has single-digit coordinates. */
  lemma {:induction false} LoadCoordsDigits(content: seq<string>)
    requires Load(content).Success?
    ensures var bs := Load(content).value;
      forall k :: 0 <= k < |bs| ==> 0 <= bs[k].x < 10 && 0 <= bs[k].y < 10
  {
    if content != [] {
      var prefix := content[..|content| - 1];
      LoadCoordsDigits(prefix);
      var bs := Load(prefix).value;
      var line := Strip(content[|content| - 1]);
      var r := Feed(bs, line).value;
      if IsHeader(line) {
        FeedHeader(bs, line);
        assert forall k :: 0 <= k < |bs| ==> r[k] == bs[k];
      } else if bs != [] {
        FeedBody(bs, line);
        assert forall k :: 0 <= k < |bs| - 1 ==> r[k] == r[..|bs| - 1][k];
      }
    }
  }

  /** How many lines are headers. */
  function HeaderCount(content: seq<string>): nat {
    if content == [] then 0
    else HeaderCount(content[..|content| - 1]) + if IsHeader(Strip(content[|content| - 1])) then 1 else 0
  }

  /** The non-blank, non-header lines, stripped, in order. */
  function BodyLines(content: seq<string>): seq<string> {
    if content == [] then []
    else
      var line := Strip(content[|content| - 1]);
      BodyLines(content[..|content| - 1]) + if !IsHeader(line) && line != "" then [line] else []
  }

  /** All the nodes' lines, one node after the other. */
  function AllLines(bs: seq<Block>): seq<string> {
    if bs == [] then [] else AllLines(bs[..|bs| - 1]) + bs[|bs| - 1].lines
  }

  lemma AllLinesAppend(bs: seq<Block>, b: Block)
    ensures AllLines(bs + [b]) == AllLines(bs) + b.lines
  {
    assert (bs + [b])[..|bs|] == bs;
  }

  /** There is one node per header line. */
  lemma {:induction false} LoadHeaderCount(content: seq<string>)
    requires Load(content).Success?
    ensures |Load(content).value| == HeaderCount(content)
  {
    if content != [] {
      LoadHeaderCount(content[..|content| - 1]);
    }
  }

  /** Load of the first m lines is Feed of line m - 1 onto Load of the lines before it. */
  lemma LoadSnoc(content: seq<string>, m: nat)
    requires 0 < m <= |content| && Load(content[..m]).Success?
    ensures Load(content[..m - 1]).Success?
    ensures Load(content[..m]) == Feed(Load(content[..m - 1]).value, Strip(content[m - 1]))
  {
    assert content[..m][..m - 1] == content[..m - 1];
  }

  /** The first k + 1 lines load as line k fed to what the first k lines load to. */
  lemma LoadStep(content: seq<string>, k: nat)
    requires k < |content| && Load(content[..k]).Success?
    ensures Load(content[..k + 1]) == Feed(Load(content[..k]).value, Strip(content[k]))
  {
    assert content[..k + 1][..k] == content[..k];
  }

  /** When all the lines load, so does every prefix of them. */
  lemma PrefixLoads(content: seq<string>, k: nat)
    requires k <= |content| && Load(content).Success?
    ensures Load(content[..k]).Success?
  {
    if Load(content[..k]).Failure? {
      LoadFailureSticks(content, k);
    }
  }

  /** A header appends a new node with no lines at the coordinates it names. */
  lemma FeedHeader(bs: seq<Block>, line: string)
    requires IsHeader(line) && Feed(bs, line).Success?
    ensures HeaderCoords(line).Some?
    ensures Feed(bs, line).value == bs + [Block(HeaderCoords(line).value.0, HeaderCoords(line).value.1, [])]
  {
  }

  /** Any other line changes only the newest node, which gets the line when it is not blank. */
  lemma FeedBody(bs: seq<Block>, line: string)
    requires !IsHeader(line) && Feed(bs, line).Success? && bs != []
    ensures var r := Feed(bs, line).value;
      var b := bs[|bs| - 1];
      |r| == |bs| && r[..|bs| - 1] == bs[..|bs| - 1] &&
      r[|bs| - 1] == b.(lines := b.lines + if line != "" then [line] else [])
  {
  }

  /** A node that is no longer the newest, or is about to stop being it, is left as it is. */
  lemma FeedKeeps(bs: seq<Block>, line: string, i: nat)
    requires Feed(bs, line).Success? && i < |bs| && (i + 1 < |bs| || IsHeader(line))
    ensures i + 1 < |Feed(bs, line).value| && Feed(bs, line).value[i] == bs[i]
  {
    if IsHeader(line) {
      FeedHeader(bs, line);
    } else {
      FeedBody(bs, line);
      assert Feed(bs, line).value[i] == Feed(bs, line).value[..|bs| - 1][i];
    }
  }

  /** What one line adds to the nodes' lines read node after node: the line itself when it is a body line. */
  lemma FeedAllLines(bs: seq<Block>, line: string)
    requires Feed(bs, line).Success?
    ensures AllLines(Feed(bs, line).value) == AllLines(bs) + if !IsHeader(line) && line != "" then [line] else []
  {
    var r := Feed(bs, line).value;
    if IsHeader(line) {
      FeedHeader(bs, line);
      AllLinesAppend(bs, r[|bs|]);
    } else if line != "" {
      var front := bs[..|bs| - 1];
      var b := bs[|bs| - 1];
      FeedBody(bs, line);
      assert bs == front + [b];
      assert r == front + [b.(lines := b.lines + [line])];
      AllLinesAppend(front, b);
      AllLinesAppend(front, b.(lines := b.lines + [line]));
    }
  }

  /** The body lines of content[a..m] are those of content[a..m - 1], then line m - 1 if it is one. */
  lemma BodyLinesSnoc(content: seq<string>, a: nat, m: nat)
    requires a < m <= |content|
    ensures BodyLines(content[a..m]) == BodyLines(content[a..m - 1]) +
      var line := Strip(content[m - 1]); if !IsHeader(line) && line != "" then [line] else []
  {
    assert content[a..m][..m - 1 - a] == content[a..m - 1];
  }

  /**
   * Every non-blank, non-header line ends up in exactly one node, in file
   * order: reading the nodes' lines one node after the other gives the body lines.
   */
  lemma {:induction false} LoadKeepsBodyLines(content: seq<string>)
    requires Load(content).Success?
    ensures AllLines(Load(content).value) == BodyLines(content)
  {
    if content != [] {
      var n := |content|;
      assert content[..n] == content;
      LoadSnoc(content, n);
      var prefix := content[..n - 1];
      var bs := Load(prefix).value;
      var line := Strip(content[n - 1]);
      assert Load(content) == Feed(bs, line);
      LoadKeepsBodyLines(prefix);
      FeedAllLines(bs, line);
      BodyLinesSnoc(content, 0, n);
      assert content[0..n] == content && content[0..n - 1] == prefix;
    }
  }

  /**
   * Line h is the header of node i (the i-th header, counting from 0), and e is
   * where that node's lines end: at the next header, or at the end of the lines.
   */
  predicate Section(content: seq<string>, i: nat, h: nat, e: nat) {
    h < e <= |content| && IsHeader(Strip(content[h])) && HeaderCount(content[..h]) == i &&
    (e == |content| || IsHeader(Strip(content[e]))) &&
    forall j :: h < j < e ==> !IsHeader(Strip(content[j]))
  }

  /**
   * Node i of bs has the coordinates at and the lines body; it is the newest
   * node exactly when newest holds.
   */
  predicate NodeSoFar(bs: seq<Block>, i: nat, at: (int, int), body: seq<string>, newest: bool) {
    i < |bs| && (if newest then |bs| == i + 1 else i + 1 < |bs|) &&
    (bs[i].x, bs[i].y) == at && bs[i].lines == body
  }

  /** The i-th header starts node i, with no lines yet. */
  lemma NodeStarts(bs: seq<Block>, line: string)
    requires IsHeader(line) && Feed(bs, line).Success?
    ensures HeaderCoords(line).Some?
    ensures NodeSoFar(Feed(bs, line).value, |bs|, HeaderCoords(line).value, [], true)
  {
    FeedHeader(bs, line);
  }

  /** While node i is the newest, a body line joins its lines and a blank line changes nothing. */
  lemma NodeGrows(bs: seq<Block>, line: string, i: nat, at: (int, int), body: seq<string>)
    requires !IsHeader(line) && Feed(bs, line).Success? && NodeSoFar(bs, i, at, body, true)
    ensures NodeSoFar(Feed(bs, line).value, i, at, body + if line != "" then [line] else [], true)
  {
    FeedBody(bs, line);
  }

  /** Once a later header has come, node i does not change any more. */
  lemma NodeStays(bs: seq<Block>, line: string, i: nat, at: (int, int), body: seq<string>, newest: bool)
    requires Feed(bs, line).Success? && NodeSoFar(bs, i, at, body, newest) && (newest ==> IsHeader(line))
    ensures NodeSoFar(Feed(bs, line).value, i, at, body, false)
  {
    FeedKeeps(bs, line, i);
  }

  /** Line m - 1 is the i-th header: after it, node i is the newest and has no lines. */
  lemma LinesStart(content: seq<string>, i: nat, m: nat)
    requires Load(content).Success? && 0 < m <= |content|
    requires IsHeader(Strip(content[m - 1])) && HeaderCount(content[..m - 1]) == i
    ensures Load(content[..m]).Success?
    ensures HeaderCoords(Strip(content[m - 1])).Some?
    ensures NodeSoFar(Load(content[..m]).value, i, HeaderCoords(Strip(content[m - 1])).value, [], true)
  {
    PrefixLoads(content, m);
    LoadSnoc(content, m);
    LoadHeaderCount(content[..m - 1]);
    NodeStarts(Load(content[..m - 1]).value, Strip(content[m - 1]));
  }

  /** Line m - 1 is not a header and node i is the newest: the line joins node i unless it is blank. */
  lemma LinesGrow(content: seq<string>, i: nat, m: nat, at: (int, int), body: seq<string>)
    requires 0 < m <= |content| && !IsHeader(Strip(content[m - 1])) && Load(content[..m]).Success?
    requires Load(content[..m - 1]).Success? && NodeSoFar(Load(content[..m - 1]).value, i, at, body, true)
    ensures var line := Strip(content[m - 1]);
      NodeSoFar(Load(content[..m]).value, i, at, body + if line != "" then [line] else [], true)
  {
    LoadSnoc(content, m);
    NodeGrows(Load(content[..m - 1]).value, Strip(content[m - 1]), i, at, body);
  }

  /** Line m - 1 is a later header, or node i is no longer the newest: node i stays as it is. */
  lemma LinesStay(content: seq<string>, i: nat, m: nat, at: (int, int), body: seq<string>, newest: bool)
    requires 0 < m <= |content| && (newest ==> IsHeader(Strip(content[m - 1]))) && Load(content[..m]).Success?
    requires Load(content[..m - 1]).Success? && NodeSoFar(Load(content[..m - 1]).value, i, at, body, newest)
    ensures NodeSoFar(Load(content[..m]).value, i, at, body, false)
  {
    LoadSnoc(content, m);
    NodeStays(Load(content[..m - 1]).value, Strip(content[m - 1]), i, at, body, newest);
  }

  /** One more line inside node i's section: node i then holds the body lines up to that line. */
  lemma OpenStep(content: seq<string>, i: nat, h: nat, at: (int, int), m: nat)
    requires h + 1 < m <= |content| && !IsHeader(Strip(content[m - 1])) && Load(content[..m]).Success?
    requires Load(content[..m - 1]).Success?
    requires NodeSoFar(Load(content[..m - 1]).value, i, at, BodyLines(content[h + 1..m - 1]), true)
    ensures NodeSoFar(Load(content[..m]).value, i, at, BodyLines(content[h + 1..m]), true)
  {
    LinesGrow(content, i, m, at, BodyLines(content[h + 1..m - 1]));
    BodyLinesSnoc(content, h + 1, m);
  }

  /**
   * Up to the next header e, node i stays the newest: after the first m
   * lines it holds the body lines from its header h to line m.
   */
  lemma {:induction false} SectionOpen(content: seq<string>, i: nat, h: nat, e: nat, at: (int, int), m: nat)
    requires h < m <= e <= |content| && Load(content[..m]).Success?
    requires forall j :: h < j < e ==> !IsHeader(Strip(content[j]))
    requires Load(content[..h + 1]).Success? && NodeSoFar(Load(content[..h + 1]).value, i, at, [], true)
    ensures NodeSoFar(Load(content[..m]).value, i, at, BodyLines(content[h + 1..m]), true)
    decreases m
  {
    if m - 1 == h {
      assert content[h + 1..m] == [];
    } else {
      LoadSnoc(content, m);
      SectionOpen(content, i, h, e, at, m - 1);
      OpenStep(content, i, h, at, m);
    }
  }

  /** From the next header e on, node i keeps the lines it had there and is no longer the newest. */
  lemma {:induction false} SectionClosed(content: seq<string>, i: nat, e: nat, at: (int, int), body: seq<string>, m: nat)
    requires e < m <= |content| && IsHeader(Strip(content[e])) && Load(content[..m]).Success?
    requires Load(content[..e]).Success? && NodeSoFar(Load(content[..e]).value, i, at, body, true)
    ensures NodeSoFar(Load(content[..m]).value, i, at, body, false)
    decreases m
  {
    LoadSnoc(content, m);
    if m - 1 == e {
      LinesStay(content, i, m, at, body, true);
    } else {
      SectionClosed(content, i, e, at, body, m - 1);
      LinesStay(content, i, m, at, body, false);
    }
  }

  /**
   * nodes[node_count].lines.append(line) puts each body line into the node of
   * the last header above it: node i holds the coordinates read from the i-th
   * header and exactly the body lines between that header and the next one.
   */
  lemma LoadSectionLines(content: seq<string>, i: nat, h: nat, e: nat)
    requires Load(content).Success? && Section(content, i, h, e)
    ensures i < |Load(content).value|
    ensures var b := Load(content).value[i];
      HeaderCoords(Strip(content[h])) == Some((b.x, b.y)) && b.lines == BodyLines(content[h + 1..e])
  {
    LinesStart(content, i, h + 1);
    var at := HeaderCoords(Strip(content[h])).value;
    PrefixLoads(content, e);
    SectionOpen(content, i, h, e, at, e);
    if e < |content| {
      PrefixLoads(content, |content|);
      SectionClosed(content, i, e, at, BodyLines(content[h + 1..e]), |content|);
    }
    assert content[..|content|] == content;
  }

  /** Some line before position i is a header. */
  predicate HeaderBefore(content: seq<string>, i: nat)
    requires i <= |content|
  {
    exists j :: 0 <= j < i && IsHeader(Strip(content[j]))
  }

  /** What load_nodes needs to finish: every header has digit coordinates, and no body line comes before the first header. */
  predicate Loadable(content: seq<string>) {
    (forall i :: 0 <= i < |content| && IsHeader(Strip(content[i])) ==> HeaderCoords(Strip(content[i])).Some?) &&
    (forall i :: 0 <= i < |content| && !IsHeader(Strip(content[i])) && Strip(content[i]) != "" ==> HeaderBefore(content, i))
  }

  lemma {:induction false} LoadEmptyIffNoHeader(content: seq<string>)
    requires Load(content).Success?
    ensures Load(content).value == [] <==> !HeaderBefore(content, |content|)
  {
    if content != [] {
      var prefix := content[..|content| - 1];
      LoadEmptyIffNoHeader(prefix);
      if HeaderBefore(prefix, |prefix|) {
        var j :| 0 <= j < |prefix| && IsHeader(Strip(prefix[j]));
        assert content[j] == prefix[j];
      }
      if HeaderBefore(content, |content|) {
        var j :| 0 <= j < |content| && IsHeader(Strip(content[j]));
        if j < |prefix| {
          assert content[j] == prefix[j];
        }
      }
    }
  }

  /** A header before position i of the lines is a header before i of any longer list of lines. */
  lemma HeaderBeforePrefix(content: seq<string>, i: nat)
    requires 0 < |content| && i < |content|
    ensures HeaderBefore(content, i) <==> HeaderBefore(content[..|content| - 1], i)
  {
    var prefix := content[..|content| - 1];
    if HeaderBefore(content, i) {
      var j :| 0 <= j < i && IsHeader(Strip(content[j]));
      assert prefix[j] == content[j];
    }
    if HeaderBefore(prefix, i) {
      var j :| 0 <= j < i && IsHeader(Strip(prefix[j]));
      assert prefix[j] == content[j];
    }
  }

  /** What the last line adds to Loadable. */
  predicate LastLineLoadable(content: seq<string>)
    requires |content| > 0
  {
    var n := |content| - 1;
    var line := Strip(content[n]);
    (IsHeader(line) ==> HeaderCoords(line).Some?) && (!IsHeader(line) && line != "" ==> HeaderBefore(content, n))
  }

  lemma LoadableStep(content: seq<string>)
    requires |content| > 0
    ensures Loadable(content) <==> Loadable(content[..|content| - 1]) && LastLineLoadable(content)
  {
    var prefix := content[..|content| - 1];
    forall i | 0 <= i < |prefix|
      ensures prefix[i] == content[i]
      ensures HeaderBefore(content, i) <==> HeaderBefore(prefix, i)
    {
      HeaderBeforePrefix(content, i);
    }
  }

  /** load_nodes raises exactly when a header is malformed or a body line comes before any header. */
  lemma {:induction false} LoadSucceedsIff(content: seq<string>)
    ensures Load(content).Success? <==> Loadable(content)
  {
    if content != [] {
      var prefix := content[..|content| - 1];
      LoadSucceedsIff(prefix);
      LoadableStep(content);
      if Load(prefix).Success? {
        LoadEmptyIffNoHeader(prefix);
        HeaderBeforeSame(content);
      }
    }
  }

  lemma HeaderBeforeSame(content: seq<string>)
    requires |content| > 0
    ensures HeaderBefore(content, |content| - 1) <==> HeaderBefore(content[..|content| - 1], |content| - 1)
  {
    HeaderBeforePrefix(content, |content| - 1);
  }

  /** The node fields load_nodes does not set still hold their initial values. */
  predicate Untouched(n: Node)
    reads n
  {
    n.acc == 0 && n.bak == 0 && n.pc == 0 && n.code == [] && n.labels == [] && n.isValid &&
    n.adjacency == NoNeighbours()
  }

  /** The nodes stand for the blocks, one for one and in order. */
  predicate Represents(nodes: seq<Node>, bs: seq<Block>)
    reads set n | n in nodes
  {
    |nodes| == |bs| &&
    forall i :: 0 <= i < |nodes| ==>
      nodes[i].xpos == bs[i].x && nodes[i].ypos == bs[i].y && nodes[i].lines == bs[i].lines && Untouched(nodes[i])
  }

  /** No node object appears twice. */
  predicate Distinct(nodes: seq<Node>) {
    forall i, j :: 0 <= i < j < |nodes| ==> nodes[i] != nodes[j]
  }

  /**
   * The loop of load_nodes: strip every line, then create a node per header
   * and append each other non-blank line to the newest node; fail where
   * Python would raise.
   */
  method LoadNodes(content: seq<string>) returns (r: Result<seq<Node>, LoadError>)
    ensures r.Success? <==> Load(content).Success?
    ensures r.Failure? ==> r.error == Load(content).error
    ensures r.Success? ==> Represents(r.value, Load(content).value) && Distinct(r.value)
    ensures r.Success? ==> forall i :: 0 <= i < |r.value| ==> fresh(r.value[i])
  {
    var stripped := seq(|content|, i requires 0 <= i < |content| => Strip(content[i]));
    var nodes: seq<Node> := [];
    var nodeCount := -1;
    ghost var blocks: seq<Block> := [];
    for k := 0 to |stripped|
      invariant Load(content[..k]) == Success(blocks)
      invariant Represents(nodes, blocks) && Distinct(nodes)
      invariant nodeCount == |nodes| - 1
      invariant forall i :: 0 <= i < |nodes| ==> fresh(nodes[i])
    {
      var line := stripped[k];
      LoadStep(content, k);
      if IsHeader(line) {
        var coords := HeaderCoords(line);
        if coords.None? {
          LoadFailureSticks(content, k + 1);
          return Failure(BadHeader(line));
        }
        var (x, y) := coords.value;
        var n := new Node(x, y);
        RepresentsAppend(nodes, blocks, n, Block(x, y, []));
        nodes := nodes + [n];
        nodeCount := nodeCount + 1;
        blocks := blocks + [Block(x, y, [])];
      } else if line != "" {
        if nodeCount < 0 {
          LoadFailureSticks(content, k + 1);
          return Failure(BodyBeforeHeader(line));
        }
        AppendLine(nodes, nodes[nodeCount], blocks, line);
        blocks := blocks[..|blocks| - 1] + [blocks[|blocks| - 1].(lines := blocks[|blocks| - 1].lines + [line])];
      }
    }
    assert content[..|content|] == content;
    return Success(nodes);
  }

  /** A newly created node for block b extends nodes that stand for bs. */
  lemma RepresentsAppend(nodes: seq<Node>, bs: seq<Block>, n: Node, b: Block)
    requires Represents(nodes, bs) && Distinct(nodes) && n !in nodes
    requires n.xpos == b.x && n.ypos == b.y && n.lines == b.lines && Untouched(n)
    ensures Represents(nodes + [n], bs + [b]) && Distinct(nodes + [n])
  {
  }

  /** nodes[node_count].lines.append(line): the newest node gets the line, no other node changes. */
  method AppendLine(nodes: seq<Node>, last: Node, ghost blocks: seq<Block>, line: string)
    requires Represents(nodes, blocks) && Distinct(nodes) && |nodes| > 0 && last == nodes[|nodes| - 1]
    modifies last`lines
    ensures Represents(nodes, blocks[..|blocks| - 1] + [blocks[|blocks| - 1].(lines := blocks[|blocks| - 1].lines + [line])])
  {
    last.lines := last.lines + [line];
  }
}
