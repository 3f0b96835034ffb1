/**
 * The condensed GlycoCT reader of pygly2/io/glycoct.py: the state machine
 * of `parse`, which walks the tokens of the stream, fills a graph of
 * residues and substituents keyed by their document index, joins them
 * with links, and yields one glycan at every new `RES` section and one at
 * the end of the stream.
 *
 * The value `Reader` holds the parser's fields, and the functions below
 * say what one token and a whole stream do to it. The class
 * `GlycoCTReader` keeps the same fields and updates them in place, each
 * method proved to do what the functions say.
 */
module GlycoCT {
  import opened Wrappers
  import opened Numerals
  import opened GlycoCTSyntax
  import opened GlycoCTLinks

  // ---------------------------------------------------------------------------
  // The parser's state

  /** `self.state`: `START`, `RES` or `LIN`. */
  datatype Section = Start | Residues | Linkages

  /** An object the reader makes from a line: a monosaccharide or a substituent. */
  datatype Node = Residue(residue: ResidueRecord) | Substituent(substituent: SubstituentRecord)

  /** A `Link` object: the places of its parent and child among the made objects, and what `parse_link` read. */
  datatype Connection = Connection(parent: nat, child: nat, link: LinkRecord)

  /** What `Glycan(self.root)` is made from: the root and every object and link made since the last reset. */
  datatype Document = Document(root: Option<nat>, nodes: seq<Node>, links: seq<Connection>)

  /**
   * The fields `parse` works on. `nodes` lists the objects in the order they
   * were made, and `graph` maps a document index to the place of the object
   * it last named. `yielded` lists what the generator has yielded so far.
   */
  datatype Reader = Reader(
    state: Section,
    nodes: seq<Node>,
    graph: map<string, nat>,
    root: Option<nat>,
    links: seq<Connection>,
    yielded: seq<Document>)

  /** `GlycoCT(stream)`: nothing read yet. */
  const Initial: Reader := Reader(Start, [], map[], None, [], [])

  function DocumentOf(r: Reader): Document {
    Document(r.root, r.nodes, r.links)
  }

  /** `_reset`: a new graph and no root; the objects made so far leave with the glycan just yielded. */
  function Cleared(r: Reader): Reader {
    r.(nodes := [], graph := map[], root := None, links := [])
  }

  /** The section headers `parse` compares the stripped token with. */
  predicate IsKeyword(s: string) {
    s == "RES" || s == "LIN" || s == "REP" || s == "ALT" || s == "UND"
  }

  // ---------------------------------------------------------------------------
  // One token

  /** A `RES` header: yield the glycan read so far, if it has a root, and start afresh. */
  function Opened(r: Reader): Reader {
    var r1 := r.(state := Residues);
    if r.root.Some? then Cleared(r1.(yielded := r.yielded + [DocumentOf(r)])) else r1
  }

  /** `graph[ix] = residue`, and the first residue becomes the root. */
  function Placed(r: Reader, rec: ResidueRecord): Reader {
    var h := |r.nodes|;
    r.(nodes := r.nodes + [Residue(rec)], graph := r.graph[rec.index := h],
       root := if r.root.None? then Some(h) else r.root)
  }

  /** `handle_residue_line` */
  function AddResidue(r: Reader, line: string): Result<Reader, ReadError>
    requires IsResidueLine(line)
  {
    match DecodeResidue(line)
    case Err(e) => Err(e)
    case Ok(rec) => Ok(Placed(r, rec))
  }

  /** `handle_residue_substituent`: `graph[ix] = sub`. */
  function AddSubstituent(r: Reader, line: string): Reader
    requires IsSubstituentLine(line)
  {
    var rec := DecodeSubstituent(line);
    r.(nodes := r.nodes + [Substituent(rec)], graph := r.graph[rec.index := |r.nodes|])
  }

  /** `graph[parent_residue_index]`, `graph[child_residue_index]`, then the `Link` between them. */
  function Connected(r: Reader, l: LinkRecord): Result<Reader, ReadError> {
    if l.parentIndex !in r.graph then Err(MissingNode(l.parentIndex))
    else if l.childIndex !in r.graph then Err(MissingNode(l.childIndex))
    else Ok(r.(links := r.links + [Connection(r.graph[l.parentIndex], r.graph[l.childIndex], l)]))
  }

  /** `handle_linkage` */
  function AddLinkage(r: Reader, line: string): Result<Reader, ReadError> {
    match ParseLink(line)
    case Err(e) => Err(e)
    case Ok(l) => Connected(r, l)
  }

  /** One pass of the loop in `parse`, its tests in the order the source makes them. */
  function Step(r: Reader, token: string): Result<Reader, ReadError> {
    var key := Strip(token);
    if key == "RES" then Ok(Opened(r))
    else if key == "LIN" then
      if r.state != Residues then Err(FormatError("LIN before RES", "")) else Ok(r.(state := Linkages))
    else if key == "REP" || key == "ALT" || key == "UND" then Err(SectionUnsupported(key))
    else if IsResidueLine(token) && r.state == Residues then AddResidue(r, token)
    else if IsSubstituentLine(token) && r.state == Residues then Ok(AddSubstituent(r, token))
    else if IsRepeatLine(token) && r.state == Residues then Err(SectionUnsupported("REP"))
    else if IsLinkageLine(token) && r.state == Linkages then AddLinkage(r, token)
    else Err(FormatError("Unknown format error: " + token, ""))
  }

  // ---------------------------------------------------------------------------
  // A whole stream

  /** The reader once the loop has stopped, and the exception that stopped it, if any. */
  datatype Halt = Halt(reader: Reader, error: Option<ReadError>)

  /** The loop of `parse` over `tokens`, up to the end or the first exception. */
  function Consume(r: Reader, tokens: seq<string>): Halt
    decreases |tokens|
  {
    if |tokens| == 0 then Halt(r, None)
    else
      match Step(r, tokens[0])
      case Err(e) => Halt(r, Some(e))
      case Ok(r1) => Consume(r1, tokens[1..])
  }

  /** What a consumer of the generator receives: the glycans yielded, and the exception it ends with, if any. */
  datatype Outcome = Outcome(documents: seq<Document>, error: Option<ReadError>)

  /** `parse`: the loop, then `yield Glycan(self.root)` once the stream is read to its end. */
  function Run(r: Reader, tokens: seq<string>): Outcome {
    var h := Consume(r, tokens);
    if h.error.None? then Outcome(h.reader.yielded + [DocumentOf(h.reader)], None)
    else Outcome(h.reader.yielded, h.error)
  }

  /** `GlycoCT(stream)` iterated to its end, over the lines of the stream. */
  function Parse(lines: seq<string>): Outcome {
    Run(Initial, ReadTokens(lines))
  }

  // ---------------------------------------------------------------------------
  // Which branch a token takes

  /** `StripRight` keeps a prefix of its text. */
  lemma {:induction false} StripRightPrefix(s: string)
    ensures StripRight(s) <= s
  {
    if |s| > 0 && IsSpace(s[|s| - 1]) {
      StripRightPrefix(s[..|s| - 1]);
    }
  }

  /** A token that starts with a digit is no section header, so the header tests pass it by. */
  lemma DigitTokenIsNoKeyword(token: string)
    requires |token| > 0 && IsDigit(token[0])
    ensures !IsKeyword(Strip(token))
  {
    assert StripLeft(token) == token;
    StripRightPrefix(token);
    if |Strip(token)| > 0 {
      assert Strip(token)[0] == token[0];
    }
  }

  /** `LIN` is accepted only in the residue section, and moves the reader to the linkage section. */
  lemma LinkageHeader(r: Reader, token: string)
    requires Strip(token) == "LIN"
    ensures Step(r, token).Err? <==> r.state != Residues
    ensures Step(r, token).Err? ==> Step(r, token).error == FormatError("LIN before RES", "")
    ensures Step(r, token).Ok? ==> Step(r, token).value == r.(state := Linkages)
  {
  }

  /** `REP`, `ALT` and `UND` stop the reader in every section, with the section named. */
  lemma UnsupportedHeaders(r: Reader, token: string)
    requires Strip(token) == "REP" || Strip(token) == "ALT" || Strip(token) == "UND"
    ensures Step(r, token) == Err(SectionUnsupported(Strip(token)))
    ensures IsGlycoCTError(Step(r, token).error)
  {
  }

  /**
   * A line of one of the four shapes is handled only in its own section: a
   * residue, substituent or repeat line in the residue section, a linkage
   * line in the linkage section. Anywhere else it is an unknown format error.
   */
  lemma ShapedLines(r: Reader, token: string)
    requires IsResidueLine(token) || IsSubstituentLine(token) || IsRepeatLine(token) || IsLinkageLine(token)
    ensures IsResidueLine(token) && r.state == Residues ==> Step(r, token) == AddResidue(r, token)
    ensures IsSubstituentLine(token) && r.state == Residues ==> Step(r, token) == Ok(AddSubstituent(r, token))
    ensures IsRepeatLine(token) && r.state == Residues ==> Step(r, token) == Err(SectionUnsupported("REP"))
    ensures IsLinkageLine(token) && r.state == Linkages ==> Step(r, token) == AddLinkage(r, token)
    ensures !IsLinkageLine(token) && r.state != Residues ==> Step(r, token) == Err(FormatError("Unknown format error: " + token, ""))
    ensures IsLinkageLine(token) && r.state != Linkages ==> Step(r, token) == Err(FormatError("Unknown format error: " + token, ""))
  {
    ShapedLineStartsWithDigit(token);
    DigitTokenIsNoKeyword(token);
    ShapesExclusive(token);
  }

  /** A token that is neither a section header nor a line of a known shape stops the reader. */
  lemma UnknownToken(r: Reader, token: string)
    requires !IsKeyword(Strip(token))
    requires !IsResidueLine(token) && !IsSubstituentLine(token) && !IsRepeatLine(token) && !IsLinkageLine(token)
    ensures Step(r, token) == Err(FormatError("Unknown format error: " + token, ""))
  {
  }

  // ---------------------------------------------------------------------------
  // What the reader keeps

  /** The place of the first residue among the made objects. */
  function FirstResidue(nodes: seq<Node>): Option<nat> {
    if |nodes| == 0 then None
    else
      match FirstResidue(nodes[..|nodes| - 1])
      case Some(k) => Some(k)
      case None => if nodes[|nodes| - 1].Residue? then Some(|nodes| - 1) else None
  }

  /** `FirstResidue` is the first place that holds a residue, and there is none when it finds none. */
  lemma {:induction false} FirstResidueIsFirst(nodes: seq<Node>)
    ensures FirstResidue(nodes).Some? ==>
              FirstResidue(nodes).value < |nodes| && nodes[FirstResidue(nodes).value].Residue? &&
              forall k | 0 <= k < FirstResidue(nodes).value :: !nodes[k].Residue?
    ensures FirstResidue(nodes).None? ==> forall k | 0 <= k < |nodes| :: !nodes[k].Residue?
  {
    if |nodes| > 0 {
      var init := nodes[..|nodes| - 1];
      FirstResidueIsFirst(init);
      assert forall k | 0 <= k < |init| :: init[k] == nodes[k];
    }
  }

  /** The document index a node's line began with. */
  function IndexOf(n: Node): string {
    match n
    case Residue(rec) => rec.index
    case Substituent(rec) => rec.index
  }

  /** Every link joins two made objects, and the root is the first residue made. */
  predicate WellFormed(d: Document) {
    (forall k | 0 <= k < |d.links| :: d.links[k].parent < |d.nodes| && d.links[k].child < |d.nodes|) &&
    d.root == FirstResidue(d.nodes)
  }

  /**
   * What the reader keeps true between tokens: its document is well
   * formed, every index in the graph names a made object whose line began
   * with that index, nothing is made before the first `RES`, and every
   * glycan yielded so far is well formed and has a root.
   */
  predicate Coherent(r: Reader) {
    WellFormed(DocumentOf(r)) &&
    (forall ix | ix in r.graph :: r.graph[ix] < |r.nodes| && IndexOf(r.nodes[r.graph[ix]]) == ix) &&
    (r.state == Start ==> r.nodes == [] && r.links == []) &&
    (forall k | 0 <= k < |r.yielded| :: WellFormed(r.yielded[k]) && r.yielded[k].root.Some?)
  }

  lemma InitialCoherent()
    ensures Coherent(Initial)
  {
  }

  lemma FirstResidueAppend(nodes: seq<Node>, n: Node)
    ensures FirstResidue(nodes + [n])
         == if FirstResidue(nodes).Some? then FirstResidue(nodes) else if n.Residue? then Some(|nodes|) else None
  {
    assert (nodes + [n])[..|nodes|] == nodes;
  }

  lemma PlacedCoherent(r: Reader, rec: ResidueRecord)
    requires Coherent(r) && r.state != Start
    ensures Coherent(Placed(r, rec))
  {
    FirstResidueAppend(r.nodes, Residue(rec));
    var r1 := Placed(r, rec);
    forall ix | ix in r1.graph
      ensures r1.graph[ix] < |r1.nodes| && IndexOf(r1.nodes[r1.graph[ix]]) == ix
    {
      if ix != rec.index {
        assert r1.nodes[r1.graph[ix]] == r.nodes[r.graph[ix]];
      }
    }
  }

  lemma SubstituentCoherent(r: Reader, line: string)
    requires Coherent(r) && r.state != Start && IsSubstituentLine(line)
    ensures Coherent(AddSubstituent(r, line))
  {
    var rec := DecodeSubstituent(line);
    FirstResidueAppend(r.nodes, Substituent(rec));
    var r1 := AddSubstituent(r, line);
    forall ix | ix in r1.graph
      ensures r1.graph[ix] < |r1.nodes| && IndexOf(r1.nodes[r1.graph[ix]]) == ix
    {
      if ix != rec.index {
        assert r1.nodes[r1.graph[ix]] == r.nodes[r.graph[ix]];
      }
    }
  }

  lemma ConnectedCoherent(r: Reader, l: LinkRecord)
    requires Coherent(r) && r.state != Start && Connected(r, l).Ok?
    ensures Coherent(Connected(r, l).value)
  {
    var r1 := Connected(r, l).value;
    assert r1.links == r.links + [r1.links[|r.links|]];
    forall k | 0 <= k < |r1.links|
      ensures r1.links[k].parent < |r1.nodes| && r1.links[k].child < |r1.nodes|
    {
      if k < |r.links| {
        assert r1.links[k] == r.links[k];
      }
    }
  }

  lemma OpenedCoherent(r: Reader)
    requires Coherent(r)
    ensures Coherent(Opened(r))
  {
    if r.root.Some? {
      var r1 := Opened(r);
      forall k | 0 <= k < |r1.yielded|
        ensures WellFormed(r1.yielded[k]) && r1.yielded[k].root.Some?
      {
        if k < |r.yielded| {
          assert r1.yielded[k] == r.yielded[k];
        }
      }
    }
  }

  /** Every token the reader accepts keeps it coherent. */
  lemma StepCoherent(r: Reader, token: string)
    requires Coherent(r) && Step(r, token).Ok?
    ensures Coherent(Step(r, token).value)
  {
    var key := Strip(token);
    if key == "RES" {
      OpenedCoherent(r);
    } else if key == "LIN" {
    } else if IsResidueLine(token) && r.state == Residues {
      PlacedCoherent(r, DecodeResidue(token).value);
    } else if IsSubstituentLine(token) && r.state == Residues {
      SubstituentCoherent(r, token);
    } else {
      ConnectedCoherent(r, ParseLink(token).value);
    }
  }

  /** An accepted token never takes back a yielded glycan, and yields one only at `RES` after a root. */
  lemma StepYields(r: Reader, token: string)
    requires Step(r, token).Ok?
    ensures var r1 := Step(r, token).value;
            r1.yielded == (if Strip(token) == "RES" && r.root.Some? then r.yielded + [DocumentOf(r)] else r.yielded)
  {
  }

  /** The loop keeps the reader coherent up to where it stops. */
  lemma {:induction false} ConsumeCoherent(r: Reader, tokens: seq<string>)
    requires Coherent(r)
    ensures Coherent(Consume(r, tokens).reader)
    ensures r.yielded <= Consume(r, tokens).reader.yielded
    decreases |tokens|
  {
    if |tokens| > 0 && Step(r, tokens[0]).Ok? {
      StepCoherent(r, tokens[0]);
      StepYields(r, tokens[0]);
      ConsumeCoherent(Step(r, tokens[0]).value, tokens[1..]);
    }
  }

  /**
   * Every glycan `parse` yields is well formed, and every one but the
   * glycan yielded at the end of the stream has a root; that last one is
   * yielded even when the stream held no residue.
   */
  lemma ParseDocuments(lines: seq<string>)
    ensures var o := Parse(lines);
            (o.error.None? ==> 0 < |o.documents|) &&
            (forall k | 0 <= k < |o.documents| :: WellFormed(o.documents[k])) &&
            (forall k | 0 <= k < |o.documents| :: k < |o.documents| - 1 || o.error.Some? ==> o.documents[k].root.Some?)
  {
    InitialCoherent();
    ConsumeCoherent(Initial, ReadTokens(lines));
  }

  /** A stream without a single token still yields one glycan, with no root. */
  lemma EmptyStream(lines: seq<string>)
    requires ReadTokens(lines) == []
    ensures Parse(lines) == Outcome([Document(None, [], [])], None)
  {
  }

  // ---------------------------------------------------------------------------
  // Reading written documents back

  predicate AllWritable(ls: seq<LinkDescription>) {
    forall k | 0 <= k < |ls| :: WritableLink(ls[k])
  }

  /** The residue lines of a document, one token each. */
  function ResidueLines(ds: seq<ResidueDescription>): seq<string> {
    if |ds| == 0 then [] else [ResidueLine(ds[0])] + ResidueLines(ds[1..])
  }

  /** The link lines of a document, one token each. */
  function LinkLines(ls: seq<LinkDescription>): seq<string>
    requires AllWritable(ls)
  {
    if |ls| == 0 then [] else assert WritableLink(ls[0]); [LinkLine(ls[0])] + LinkLines(ls[1..])
  }

  /** The tokens of a written document: `RES`, its residue lines, `LIN` and its link lines. */
  function DocumentTokens(ds: seq<ResidueDescription>, ls: seq<LinkDescription>): seq<string>
    requires AllWritable(ls)
  {
    ["RES"] + (ResidueLines(ds) + (["LIN"] + LinkLines(ls)))
  }

  function ResidueNodes(ds: seq<ResidueDescription>): (r: seq<Node>)
    ensures |r| == |ds| && forall k | 0 <= k < |ds| :: r[k] == Residue(Expected(ds[k]))
  {
    if |ds| == 0 then [] else [Residue(Expected(ds[0]))] + ResidueNodes(ds[1..])
  }

  /** The graph after the residues `ds` are placed from place `h` on, one `graph[ix] = residue` each. */
  function GraphAfter(g: map<string, nat>, ds: seq<ResidueDescription>, h: nat): map<string, nat>
    decreases |ds|
  {
    if |ds| == 0 then g else GraphAfter(g[NatString(ds[0].index) := h], ds[1..], h + 1)
  }

  /** Every link of `ls` joins two indices of `g`. */
  predicate Joins(g: map<string, nat>, ls: seq<LinkDescription>) {
    forall k | 0 <= k < |ls| :: NatString(ls[k].parent) in g && NatString(ls[k].child) in g
  }

  /** The links a list of written links makes over a graph, in order. */
  function Connections(g: map<string, nat>, ls: seq<LinkDescription>): seq<Connection>
    requires AllWritable(ls) && Joins(g, ls)
  {
    if |ls| == 0 then []
    else
      assert WritableLink(ls[0]) && NatString(ls[0].parent) in g && NatString(ls[0].child) in g;
      [Connection(g[NatString(ls[0].parent)], g[NatString(ls[0].child)], ExpectedLink(ls[0]))] + Connections(g, ls[1..])
  }

  /** The `k`-th link made joins the places of the `k`-th written link's two indices. */
  lemma {:induction false} ConnectionsAt(g: map<string, nat>, ls: seq<LinkDescription>, k: nat)
    requires AllWritable(ls) && Joins(g, ls) && k < |ls|
    ensures |Connections(g, ls)| == |ls|
    ensures Connections(g, ls)[k] ==
            Connection(g[NatString(ls[k].parent)], g[NatString(ls[k].child)], ExpectedLink(ls[k]))
    decreases |ls|
  {
    assert AllWritable(ls[1..]) && Joins(g, ls[1..]);
    if 0 < k {
      ConnectionsAt(g, ls[1..], k - 1);
    } else if 1 < |ls| {
      ConnectionsAt(g, ls[1..], 0);
    } else {
      assert |Connections(g, ls[1..])| == 0;
    }
  }

  /** The reader after its residue lines: every residue placed after the objects already made. */
  function Loaded(r: Reader, ds: seq<ResidueDescription>): Reader {
    r.(nodes := r.nodes + ResidueNodes(ds), graph := GraphAfter(r.graph, ds, |r.nodes|),
       root := if r.root.None? && 0 < |ds| then Some(|r.nodes|) else r.root)
  }

  /** A token the reader accepts hands the rest of the stream to the new reader. */
  lemma ConsumeStep(r: Reader, token: string, rest: seq<string>, r1: Reader)
    requires Step(r, token) == Ok(r1)
    ensures Consume(r, [token] + rest) == Consume(r1, rest)
  {
    assert ([token] + rest)[0] == token;
    assert ([token] + rest)[1..] == rest;
  }

  /** A written residue line, in the residue section, places its residue. */
  lemma StepResidueLine(r: Reader, d: ResidueDescription)
    requires r.state == Residues && Writable(d)
    ensures Step(r, ResidueLine(d)) == Ok(Placed(r, Expected(d)))
  {
    DecodeResidueLine(d);
    ShapedLines(r, ResidueLine(d));
  }

  /** A written link line between two known indices, in the linkage section, makes its link. */
  lemma StepLinkLine(r: Reader, l: LinkDescription)
    requires r.state == Linkages && WritableLink(l)
    requires NatString(l.parent) in r.graph && NatString(l.child) in r.graph
    ensures Step(r, LinkLine(l)) ==
            Ok(r.(links := r.links + [Connection(r.graph[NatString(l.parent)], r.graph[NatString(l.child)], ExpectedLink(l))]))
  {
    ParseLinkLine(l);
    LinkLineShape(l);
    ShapedLines(r, LinkLine(l));
  }

  /** The first of the residue lines places its residue and leaves the others to the next reader. */
  lemma ReadFirstResidueLine(r: Reader, ds: seq<ResidueDescription>, rest: seq<string>)
    requires r.state == Residues && 0 < |ds| && Writable(ds[0])
    ensures Consume(r, ResidueLines(ds) + rest) == Consume(Placed(r, Expected(ds[0])), ResidueLines(ds[1..]) + rest)
  {
    StepResidueLine(r, ds[0]);
    assert ([ResidueLine(ds[0])] + ResidueLines(ds[1..])) + rest == [ResidueLine(ds[0])] + (ResidueLines(ds[1..]) + rest);
    ConsumeStep(r, ResidueLine(ds[0]), ResidueLines(ds[1..]) + rest, Placed(r, Expected(ds[0])));
  }

  lemma LoadedFirst(r: Reader, ds: seq<ResidueDescription>)
    requires 0 < |ds|
    ensures Loaded(Placed(r, Expected(ds[0])), ds[1..]) == Loaded(r, ds)
  {
    var n := Residue(Expected(ds[0]));
    assert ResidueNodes(ds) == [n] + ResidueNodes(ds[1..]);
    assert (r.nodes + [n]) + ResidueNodes(ds[1..]) == r.nodes + ResidueNodes(ds);
    assert GraphAfter(r.graph, ds, |r.nodes|) == GraphAfter(r.graph[Expected(ds[0]).index := |r.nodes|], ds[1..], |r.nodes| + 1);
  }

  /** Reading the residue lines of written residues places each of them, in order. */
  lemma {:induction false} ReadResidueLines(r: Reader, ds: seq<ResidueDescription>, rest: seq<string>)
    requires r.state == Residues && forall k | 0 <= k < |ds| :: Writable(ds[k])
    ensures Consume(r, ResidueLines(ds) + rest) == Consume(Loaded(r, ds), rest)
    decreases |ds|
  {
    if |ds| == 0 {
      assert ResidueLines(ds) + rest == rest;
      assert r.nodes + ResidueNodes(ds) == r.nodes;
      assert Loaded(r, ds) == r;
    } else {
      ReadFirstResidueLine(r, ds, rest);
      ReadResidueLines(Placed(r, Expected(ds[0])), ds[1..], rest);
      LoadedFirst(r, ds);
    }
  }

  /** The first of the link lines makes its link and leaves the others to the next reader. */
  lemma ReadFirstLinkLine(r: Reader, ls: seq<LinkDescription>, rest: seq<string>)
    requires r.state == Linkages && 0 < |ls| && AllWritable(ls) && Joins(r.graph, ls)
    ensures Consume(r, LinkLines(ls) + rest) ==
            Consume(r.(links := r.links + Connections(r.graph, ls[..1])), LinkLines(ls[1..]) + rest)
  {
    assert WritableLink(ls[0]) && NatString(ls[0].parent) in r.graph && NatString(ls[0].child) in r.graph;
    var c := Connection(r.graph[NatString(ls[0].parent)], r.graph[NatString(ls[0].child)], ExpectedLink(ls[0]));
    assert Connections(r.graph, ls[..1]) == [c];
    StepLinkLine(r, ls[0]);
    assert ([LinkLine(ls[0])] + LinkLines(ls[1..])) + rest == [LinkLine(ls[0])] + (LinkLines(ls[1..]) + rest);
    ConsumeStep(r, LinkLine(ls[0]), LinkLines(ls[1..]) + rest, r.(links := r.links + [c]));
  }

  lemma ConnectionsFirst(g: map<string, nat>, ls: seq<LinkDescription>, links: seq<Connection>)
    requires 0 < |ls| && AllWritable(ls) && Joins(g, ls)
    ensures AllWritable(ls[1..]) && Joins(g, ls[1..]) && AllWritable(ls[..1]) && Joins(g, ls[..1])
    ensures (links + Connections(g, ls[..1])) + Connections(g, ls[1..]) == links + Connections(g, ls)
  {
    assert WritableLink(ls[0]) && NatString(ls[0].parent) in g && NatString(ls[0].child) in g;
    assert Connections(g, ls[..1]) == Connections(g, ls)[..1];
  }

  /** Reading the link lines of written links between indices in the graph makes each link, in order. */
  lemma {:induction false} ReadLinkLines(r: Reader, ls: seq<LinkDescription>, rest: seq<string>)
    requires r.state == Linkages && AllWritable(ls) && Joins(r.graph, ls)
    ensures Consume(r, LinkLines(ls) + rest) == Consume(r.(links := r.links + Connections(r.graph, ls)), rest)
    decreases |ls|
  {
    if |ls| == 0 {
      assert LinkLines(ls) + rest == rest;
      assert r.links + Connections(r.graph, ls) == r.links;
    } else {
      ConnectionsFirst(r.graph, ls, r.links);
      ReadFirstLinkLine(r, ls, rest);
      ReadLinkLines(r.(links := r.links + Connections(r.graph, ls[..1])), ls[1..], rest);
    }
  }

  // ---------------------------------------------------------------------------
  // Whole written documents

  /** The document indices of the residues. */
  function Indices(ds: seq<ResidueDescription>): set<nat> {
    set j | 0 <= j < |ds| :: ds[j].index
  }

  /** No two residues share an index. */
  predicate Distinct(ds: seq<ResidueDescription>) {
    forall i, j | 0 <= i < j < |ds| :: ds[i].index != ds[j].index
  }

  /** Every link joins two of the residues. */
  predicate LinksWithin(ds: seq<ResidueDescription>, ls: seq<LinkDescription>) {
    forall k | 0 <= k < |ls| :: ls[k].parent in Indices(ds) && ls[k].child in Indices(ds)
  }

  /** A document the writer can produce: writable residues and links, the links between its residues. */
  predicate Readable(ds: seq<ResidueDescription>, ls: seq<LinkDescription>) {
    (forall j | 0 <= j < |ds| :: Writable(ds[j])) && AllWritable(ls) && LinksWithin(ds, ls)
  }

  function WrittenGraph(ds: seq<ResidueDescription>): map<string, nat> {
    GraphAfter(map[], ds, 0)
  }

  lemma NatStringInjective(m: nat, n: nat)
    ensures NatString(m) == NatString(n) <==> m == n
  {
    NatStringValue(m);
    NatStringValue(n);
  }

  /** Placing residues keeps every key already in the graph. */
  lemma {:induction false} GraphAfterGrows(g: map<string, nat>, ds: seq<ResidueDescription>, h: nat, x: string)
    requires x in g
    ensures x in GraphAfter(g, ds, h)
    decreases |ds|
  {
    if 0 < |ds| {
      GraphAfterGrows(g[NatString(ds[0].index) := h], ds[1..], h + 1, x);
    }
  }

  /** Every placed residue's index is a key of the graph. */
  lemma {:induction false} GraphAfterKeys(g: map<string, nat>, ds: seq<ResidueDescription>, h: nat, j: nat)
    requires j < |ds|
    ensures NatString(ds[j].index) in GraphAfter(g, ds, h)
    decreases |ds|
  {
    var g1 := g[NatString(ds[0].index) := h];
    if j == 0 {
      GraphAfterGrows(g1, ds[1..], h + 1, NatString(ds[0].index));
    } else {
      GraphAfterKeys(g1, ds[1..], h + 1, j - 1);
    }
  }

  /** A key no residue names keeps its place. */
  lemma {:induction false} GraphAfterFrame(g: map<string, nat>, ds: seq<ResidueDescription>, h: nat, x: string)
    requires x in g && forall j | 0 <= j < |ds| :: NatString(ds[j].index) != x
    ensures x in GraphAfter(g, ds, h) && GraphAfter(g, ds, h)[x] == g[x]
    decreases |ds|
  {
    GraphAfterGrows(g, ds, h, x);
    if 0 < |ds| {
      var g1 := g[NatString(ds[0].index) := h];
      assert forall j | 0 <= j < |ds[1..]| :: ds[1..][j] == ds[j + 1];
      GraphAfterFrame(g1, ds[1..], h + 1, x);
    }
  }

  /** With distinct indices, the `j`-th residue placed from `h` on sits at `h + j`. */
  lemma {:induction false} GraphAfterPlaces(g: map<string, nat>, ds: seq<ResidueDescription>, h: nat, j: nat)
    requires Distinct(ds) && j < |ds|
    ensures NatString(ds[j].index) in GraphAfter(g, ds, h) && GraphAfter(g, ds, h)[NatString(ds[j].index)] == h + j
    decreases |ds|
  {
    GraphAfterKeys(g, ds, h, j);
    var g1 := g[NatString(ds[0].index) := h];
    if j == 0 {
      forall i | 0 <= i < |ds[1..]|
        ensures NatString(ds[1..][i].index) != NatString(ds[0].index)
      {
        assert ds[1..][i] == ds[i + 1];
        NatStringInjective(ds[1..][i].index, ds[0].index);
      }
      GraphAfterFrame(g1, ds[1..], h + 1, NatString(ds[0].index));
    } else {
      GraphAfterPlaces(g1, ds[1..], h + 1, j - 1);
    }
  }

  /** The links of a readable document join indices of its graph. */
  lemma WrittenJoins(ds: seq<ResidueDescription>, ls: seq<LinkDescription>)
    requires LinksWithin(ds, ls)
    ensures Joins(WrittenGraph(ds), ls)
  {
    forall k | 0 <= k < |ls|
      ensures NatString(ls[k].parent) in WrittenGraph(ds) && NatString(ls[k].child) in WrittenGraph(ds)
    {
      assert ls[k].parent in Indices(ds) && ls[k].child in Indices(ds);
      var i :| 0 <= i < |ds| && ds[i].index == ls[k].parent;
      var j :| 0 <= j < |ds| && ds[j].index == ls[k].child;
      GraphAfterKeys(map[], ds, 0, i);
      GraphAfterKeys(map[], ds, 0, j);
    }
  }

  /** The glycan a written document should read back as. */
  function WrittenDocument(ds: seq<ResidueDescription>, ls: seq<LinkDescription>): Document
    requires Readable(ds, ls)
  {
    WrittenJoins(ds, ls);
    Document(if 0 < |ds| then Some(0) else None, ResidueNodes(ds), Connections(WrittenGraph(ds), ls))
  }

  /** The reader once a written document has been read after the glycans `y`. */
  function WrittenReader(y: seq<Document>, ds: seq<ResidueDescription>, ls: seq<LinkDescription>): Reader
    requires Readable(ds, ls)
  {
    var d := WrittenDocument(ds, ls);
    Reader(Linkages, d.nodes, WrittenGraph(ds), d.root, d.links, y)
  }

  lemma StripHeaders()
    ensures Strip("RES") == "RES" && Strip("LIN") == "LIN"
  {
    assert StripLeft("RES") == "RES" && StripRight("RES") == "RES";
    assert StripLeft("LIN") == "LIN" && StripRight("LIN") == "LIN";
  }

  /** The `RES` header of a document: the reader starts the residue section with nothing made. */
  lemma ReadResHeader(r: Reader, rest: seq<string>)
    requires r.root.Some? || (r.nodes == [] && r.graph == map[] && r.links == [])
    ensures Opened(r) == Reader(Residues, [], map[], None, [], Opened(r).yielded)
    ensures Consume(r, ["RES"] + rest) == Consume(Opened(r), rest)
  {
    StripHeaders();
    ConsumeStep(r, "RES", rest, Opened(r));
  }

  /** The `LIN` header in the residue section starts the linkage section. */
  lemma ReadLinHeader(r: Reader, rest: seq<string>)
    requires r.state == Residues
    ensures Consume(r, ["LIN"] + rest) == Consume(r.(state := Linkages), rest)
  {
    StripHeaders();
    LinkageHeader(r, "LIN");
    ConsumeStep(r, "LIN", rest, r.(state := Linkages));
  }

  /** The residue section read by a reader with nothing made. */
  lemma LoadedFresh(y: seq<Document>, ds: seq<ResidueDescription>)
    ensures Loaded(Reader(Residues, [], map[], None, [], y), ds) ==
            Reader(Residues, ResidueNodes(ds), WrittenGraph(ds), if 0 < |ds| then Some(0) else None, [], y)
  {
    assert [] + ResidueNodes(ds) == ResidueNodes(ds);
  }

  /** The residue section followed by the links of a readable document is the written reader. */
  lemma LinkedFresh(y: seq<Document>, ds: seq<ResidueDescription>, ls: seq<LinkDescription>)
    requires Readable(ds, ls) && Joins(WrittenGraph(ds), ls)
    ensures Reader(Linkages, ResidueNodes(ds), WrittenGraph(ds), if 0 < |ds| then Some(0) else None,
                   [] + Connections(WrittenGraph(ds), ls), y) == WrittenReader(y, ds, ls)
  {
    assert [] + Connections(WrittenGraph(ds), ls) == Connections(WrittenGraph(ds), ls);
  }

  /** `LIN` and the link lines, read in the residue section. */
  lemma ReadLinkSection(r: Reader, ls: seq<LinkDescription>, rest: seq<string>)
    requires r.state == Residues && AllWritable(ls) && Joins(r.graph, ls)
    ensures Consume(r, (["LIN"] + LinkLines(ls)) + rest) ==
            Consume(r.(state := Linkages, links := r.links + Connections(r.graph, ls)), rest)
  {
    assert (["LIN"] + LinkLines(ls)) + rest == ["LIN"] + (LinkLines(ls) + rest);
    ReadLinHeader(r, LinkLines(ls) + rest);
    ReadLinkLines(r.(state := Linkages), ls, rest);
  }

  /** The lines after `RES`: the residues, `LIN`, and the links between them. */
  lemma ReadDocumentBody(y: seq<Document>, ds: seq<ResidueDescription>, ls: seq<LinkDescription>, rest: seq<string>)
    requires Readable(ds, ls)
    ensures Consume(Reader(Residues, [], map[], None, [], y), ResidueLines(ds) + ((["LIN"] + LinkLines(ls)) + rest)) ==
            Consume(WrittenReader(y, ds, ls), rest)
  {
    var r0 := Reader(Residues, [], map[], None, [], y);
    ReadResidueLines(r0, ds, (["LIN"] + LinkLines(ls)) + rest);
    LoadedFresh(y, ds);
    WrittenJoins(ds, ls);
    ReadLinkSection(Loaded(r0, ds), ls, rest);
    LinkedFresh(y, ds, ls);
  }

  lemma DocumentTokensThen(ds: seq<ResidueDescription>, ls: seq<LinkDescription>, rest: seq<string>)
    requires AllWritable(ls)
    ensures DocumentTokens(ds, ls) + rest == ["RES"] + (ResidueLines(ds) + ((["LIN"] + LinkLines(ls)) + rest))
  {
    var body := ResidueLines(ds) + (["LIN"] + LinkLines(ls));
    assert DocumentTokens(ds, ls) + rest == ["RES"] + (body + rest);
    assert body + rest == ResidueLines(ds) + ((["LIN"] + LinkLines(ls)) + rest);
  }

  /**
   * A written document read by a reader with a root, or with nothing made:
   * the glycan read so far is yielded, and the reader holds the written
   * document's residues, graph and links.
   */
  lemma ReadDocumentTokens(r: Reader, ds: seq<ResidueDescription>, ls: seq<LinkDescription>, rest: seq<string>)
    requires r.root.Some? || (r.nodes == [] && r.graph == map[] && r.links == [])
    requires Readable(ds, ls)
    ensures Consume(r, DocumentTokens(ds, ls) + rest) == Consume(WrittenReader(Opened(r).yielded, ds, ls), rest)
  {
    DocumentTokensThen(ds, ls, rest);
    ReadResHeader(r, ResidueLines(ds) + ((["LIN"] + LinkLines(ls)) + rest));
    ReadDocumentBody(Opened(r).yielded, ds, ls, rest);
  }

  /** A stream holding one written document reads back as that document, and nothing goes wrong. */
  lemma ReadOneDocument(ds: seq<ResidueDescription>, ls: seq<LinkDescription>)
    requires Readable(ds, ls)
    ensures Run(Initial, DocumentTokens(ds, ls)) == Outcome([WrittenDocument(ds, ls)], None)
  {
    ReadDocumentTokens(Initial, ds, ls, []);
    assert DocumentTokens(ds, ls) + [] == DocumentTokens(ds, ls);
  }

  /** Two written documents in one stream: the first is yielded when the second `RES` is read. */
  lemma ReadTwoDocuments(ds1: seq<ResidueDescription>, ls1: seq<LinkDescription>,
                         ds2: seq<ResidueDescription>, ls2: seq<LinkDescription>)
    requires Readable(ds1, ls1) && Readable(ds2, ls2) && 0 < |ds1|
    ensures Run(Initial, DocumentTokens(ds1, ls1) + DocumentTokens(ds2, ls2)) ==
            Outcome([WrittenDocument(ds1, ls1), WrittenDocument(ds2, ls2)], None)
  {
    ReadDocumentTokens(Initial, ds1, ls1, DocumentTokens(ds2, ls2));
    var w1 := WrittenReader([], ds1, ls1);
    ReadDocumentTokens(w1, ds2, ls2, []);
    assert DocumentTokens(ds2, ls2) + [] == DocumentTokens(ds2, ls2);
    assert Opened(w1).yielded == [WrittenDocument(ds1, ls1)];
  }

  /** A place holding a residue before any other is the first residue. */
  lemma FirstResidueAtStart(nodes: seq<Node>)
    requires 0 < |nodes| && nodes[0].Residue?
    ensures FirstResidue(nodes) == Some(0)
  {
    FirstResidueIsFirst(nodes);
  }

  /** The `k`-th link read joins the residues the `k`-th written link names. */
  lemma WrittenLinkAt(ds: seq<ResidueDescription>, ls: seq<LinkDescription>, k: nat)
    requires Readable(ds, ls) && Distinct(ds) && k < |ls|
    ensures Joins(WrittenGraph(ds), ls)
    ensures var c := Connections(WrittenGraph(ds), ls);
      |c| == |ls| && c[k].parent < |ds| && c[k].child < |ds| &&
      ds[c[k].parent].index == ls[k].parent && ds[c[k].child].index == ls[k].child &&
      c[k].link == ExpectedLink(ls[k])
  {
    WrittenJoins(ds, ls);
    var l := ls[k];
    assert l.parent in Indices(ds) && l.child in Indices(ds);
    WrittenPlace(ds, l.parent);
    WrittenPlace(ds, l.child);
    ConnectionsAt(WrittenGraph(ds), ls, k);
  }

  /** A written residue index names the place of the residue that carries it. */
  lemma WrittenPlace(ds: seq<ResidueDescription>, x: nat)
    requires Distinct(ds) && x in Indices(ds)
    ensures NatString(x) in WrittenGraph(ds)
    ensures var p := WrittenGraph(ds)[NatString(x)]; p < |ds| && ds[p].index == x
  {
    var i :| 0 <= i < |ds| && ds[i].index == x;
    GraphAfterPlaces(map[], ds, 0, i);
  }

  /**
   * What a written document reads back as: its residues in writing order,
   * the first as root, and one link per written link, between the residues
   * the link names, carrying the first position of each side.
   */
  lemma WrittenDocumentFacts(ds: seq<ResidueDescription>, ls: seq<LinkDescription>)
    requires Readable(ds, ls) && Distinct(ds)
    ensures var d := WrittenDocument(ds, ls);
      WellFormed(d) && |d.nodes| == |ds| && |d.links| == |ls| &&
      (0 < |ds| ==> d.root == Some(0)) &&
      (forall j | 0 <= j < |ds| :: d.nodes[j] == Residue(Expected(ds[j]))) &&
      (forall k | 0 <= k < |ls| ::
        ds[d.links[k].parent].index == ls[k].parent && ds[d.links[k].child].index == ls[k].child &&
        d.links[k].link == ExpectedLink(ls[k]))
  {
    WrittenJoins(ds, ls);
    var d := WrittenDocument(ds, ls);
    var c := Connections(WrittenGraph(ds), ls);
    assert d.links == c && d.nodes == ResidueNodes(ds);
    if 0 < |ls| {
      WrittenLinkAt(ds, ls, 0);
    } else {
      assert |c| == 0;
    }
    assert |c| == |ls|;
    forall k | 0 <= k < |ls|
      ensures c[k].parent < |ds| && c[k].child < |ds|
      ensures ds[c[k].parent].index == ls[k].parent && ds[c[k].child].index == ls[k].child
      ensures c[k].link == ExpectedLink(ls[k])
    {
      WrittenLinkAt(ds, ls, k);
    }
    if 0 < |ds| {
      FirstResidueAtStart(d.nodes);
    } else {
      assert FirstResidue(d.nodes) == None;
    }
  }

  // ---------------------------------------------------------------------------
  // The reader object

  lemma SplitAt(tokens: seq<string>, i: nat)
    requires i < |tokens|
    ensures tokens[i..] == [tokens[i]] + tokens[i + 1..]
  {
  }

  /** A token the reader refuses stops the loop there, with the reader as it was. */
  lemma ConsumeHalts(r: Reader, token: string, rest: seq<string>, e: ReadError)
    requires Step(r, token) == Err(e)
    ensures Consume(r, [token] + rest) == Halt(r, Some(e))
  {
    assert ([token] + rest)[0] == token;
  }

  /** The parser object `GlycoCT(stream)`, its fields updated in place as `parse` reads the stream. */
  class GlycoCTReader {
    /** The lines of the stream. */
    var lines: seq<string>
    var state: Section
    /** The objects made since the last reset, in the order they were made. */
    var nodes: seq<Node>
    var graph: map<string, nat>
    var root: Option<nat>
    var links: seq<Connection>
    /** The glycans yielded so far. */
    var yielded: seq<Document>

    function Snapshot(): Reader
      reads this
    {
      Reader(state, nodes, graph, root, links, yielded)
    }

    /** `GlycoCT(stream)`: the stream opened, nothing read. */
    constructor (stream: seq<string>)
      ensures lines == stream && Snapshot() == Initial
    {
      lines := stream;
      state := Start;
      nodes := [];
      graph := map[];
      root := None;
      links := [];
      yielded := [];
    }

    /** `_reset`: a new graph and no root. */
    method Reset()
      modifies this
      ensures lines == old(lines) && Snapshot() == Cleared(old(Snapshot()))
    {
      nodes := [];
      graph := map[];
      root := None;
      links := [];
    }

    /** `handle_residue_line`: decode the line, put the residue in the graph, and make it the root if there is none. */
    method HandleResidueLine(line: string) returns (error: Option<ReadError>)
      requires IsResidueLine(line)
      modifies this
      ensures lines == old(lines)
      ensures (if error.None? then Ok(Snapshot()) else Err(error.value)) == AddResidue(old(Snapshot()), line)
      ensures error.Some? ==> Snapshot() == old(Snapshot())
    {
      var decoded := DecodeResidue(line);
      if decoded.Err? {
        return Some(decoded.error);
      }
      var residue := decoded.value;
      var h := |nodes|;
      nodes := nodes + [Residue(residue)];
      graph := graph[residue.index := h];
      if root.None? {
        root := Some(h);
      }
      error := None;
    }

    /** `handle_residue_substituent`: put the substituent in the graph. */
    method HandleResidueSubstituent(line: string)
      requires IsSubstituentLine(line)
      modifies this
      ensures lines == old(lines) && Snapshot() == AddSubstituent(old(Snapshot()), line)
    {
      var sub := DecodeSubstituent(line);
      nodes := nodes + [Substituent(sub)];
      graph := graph[sub.index := |nodes| - 1];
    }

    /** `handle_linkage`: read the link, look up its parent and then its child, and join them. */
    method HandleLinkage(line: string) returns (error: Option<ReadError>)
      modifies this
      ensures lines == old(lines)
      ensures (if error.None? then Ok(Snapshot()) else Err(error.value)) == AddLinkage(old(Snapshot()), line)
      ensures error.Some? ==> Snapshot() == old(Snapshot())
    {
      var parsed := ParseLink(line);
      if parsed.Err? {
        return Some(parsed.error);
      }
      var l := parsed.value;
      if l.parentIndex !in graph {
        return Some(MissingNode(l.parentIndex));
      }
      var parent := graph[l.parentIndex];
      if l.childIndex !in graph {
        return Some(MissingNode(l.childIndex));
      }
      var child := graph[l.childIndex];
      links := links + [Connection(parent, child, l)];
      error := None;
    }

    /** One pass of the loop in `parse`; a `RES` header yields the glycan read so far, if it has a root. */
    method Feed(token: string) returns (error: Option<ReadError>)
      modifies this
      ensures lines == old(lines)
      ensures (if error.None? then Ok(Snapshot()) else Err(error.value)) == Step(old(Snapshot()), token)
      ensures error.Some? ==> Snapshot() == old(Snapshot())
    {
      var key := Strip(token);
      error := None;
      if key == "RES" {
        state := Residues;
        if root.Some? {
          yielded := yielded + [Document(root, nodes, links)];
          Reset();
        }
      } else if key == "LIN" {
        if state != Residues {
          return Some(FormatError("LIN before RES", ""));
        }
        state := Linkages;
      } else if key == "REP" || key == "ALT" || key == "UND" {
        return Some(SectionUnsupported(key));
      } else if IsResidueLine(token) && state == Residues {
        error := HandleResidueLine(token);
      } else if IsSubstituentLine(token) && state == Residues {
        HandleResidueSubstituent(token);
      } else if IsRepeatLine(token) && state == Residues {
        return Some(SectionUnsupported("REP"));
      } else if IsLinkageLine(token) && state == Linkages {
        error := HandleLinkage(token);
      } else {
        return Some(FormatError("Unknown format error: " + token, ""));
      }
    }

    /**
     * `parse` run to its end: the glycans yielded, then `Glycan(self.root)`
     * once every token is read, or the exception that stopped the loop.
     */
    method Parse() returns (documents: seq<Document>, error: Option<ReadError>)
      modifies this
      ensures lines == old(lines)
      ensures Outcome(documents, error) == Run(old(Snapshot()), ReadTokens(lines))
      ensures Snapshot() == Consume(old(Snapshot()), ReadTokens(lines)).reader
    {
      var tokens := ReadTokens(lines);
      var i := 0;
      while i < |tokens|
        invariant 0 <= i <= |tokens| && lines == old(lines)
        invariant Consume(old(Snapshot()), tokens) == Consume(Snapshot(), tokens[i..])
      {
        ghost var before := Snapshot();
        SplitAt(tokens, i);
        var e := Feed(tokens[i]);
        if e.Some? {
          ConsumeHalts(before, tokens[i], tokens[i + 1..], e.value);
          return yielded, e;
        }
        ConsumeStep(before, tokens[i], tokens[i + 1..], Snapshot());
        i := i + 1;
      }
      documents := yielded + [Document(root, nodes, links)];
      error := None;
    }
  }

  /** Iterating a fresh reader to its end is `Parse` of its lines. */
  method ReadAll(stream: seq<string>) returns (documents: seq<Document>, error: Option<ReadError>)
    ensures Outcome(documents, error) == Parse(stream)
  {
    var reader := new GlycoCTReader(stream);
    documents, error := reader.Parse();
  }
}
