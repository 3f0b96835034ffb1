/**
 * `parse_link` of the condensed GlycoCT reader (pygly2/io/glycoct.py):
 * `link_pattern` written out as a recogniser, the first-alternative rule
 * for ambiguous attachment positions, and the link template the reader
 * reads back.
 */
module GlycoCTLinks {
  import opened Wrappers
  import opened Numerals
  import opened GlycoCTSyntax

  /** `[odhnx]`: the atom a link replaces. */
  predicate IsAtomCode(c: char) {
    c == 'o' || c == 'd' || c == 'h' || c == 'n' || c == 'x'
  }

  /** `[0-9\-\|]`: a character of an attachment position. */
  predicate IsPositionChar(c: char) {
    IsDigit(c) || c == '-' || c == '|'
  }

  /** What may stand between the parentheses of a link: the positions and their separator. */
  predicate InParentheses(c: char) {
    IsPositionChar(c) || c == '+'
  }

  predicate IsPositionText(s: string) {
    |s| > 0 && forall k | 0 <= k < |s| :: IsPositionChar(s[k])
  }

  /** The named groups of one `link_pattern` match; an absent `doc_index` is `None`. */
  datatype LinkFields = LinkFields(
    docIndex: Option<string>,
    parentIndex: string,
    parentAtom: char,
    parentPosition: string,
    childPosition: string,
    childIndex: string,
    childAtom: char)

  /**
   * `(-?[0-9\-\|]+)[\+\-](-?[0-9\-\|]+)` over the whole text between the
   * parentheses: the separator the backtracking settles on, which is the
   * right-most one, at `j` or before, with a position on either side of it.
   */
  function Separator(inside: string, j: nat): (r: Option<nat>)
    requires j < |inside|
    ensures r.Some? ==> 0 < r.value < |inside| - 1 && r.value <= j
    ensures r.Some? ==> (inside[r.value] == '+' || inside[r.value] == '-')
    ensures r.Some? ==> IsPositionText(inside[..r.value]) && IsPositionText(inside[r.value + 1..])
    decreases j
  {
    if 0 < j && j + 1 < |inside| && (inside[j] == '+' || inside[j] == '-') &&
       IsPositionText(inside[..j]) && IsPositionText(inside[j + 1..])
    then Some(j)
    else if j == 0 then None
    else Separator(inside, j - 1)
  }

  /** `\((...)[\+\-](...)\)` at the start of `t`: the two positions and the text after the parenthesis. */
  function MatchPositions(t: string): Option<(string, string, string)> {
    if |t| == 0 || t[0] != '(' then None
    else
      var w := t[1..];
      var n := Span(w, 0, InParentheses);
      if n == 0 || n >= |w| || w[n] != ')' then None
      else
        var inside := w[..n];
        match Separator(inside, n - 1)
        case None => None
        case Some(j) => Some((inside[..j], inside[j + 1..], w[n + 1..]))
  }

  /** `(\d+)[odhnx]` at the start of `t`: the residue index and the atom. */
  function MatchNode(t: string): Option<(string, char, string)> {
    var a := Span(t, 0, IsDigit);
    if a == 0 || a >= |t| || !IsAtomCode(t[a]) then None else Some((t[..a], t[a], t[a + 1..]))
  }

  /** `link_pattern` matched at the start of `t`. */
  function MatchLink(t: string): Option<LinkFields> {
    var d := Span(t, 0, IsDigit);
    if d >= |t| || t[d] != ':' then None
    else
      var doc := if d == 0 then None else Some(t[..d]);
      match MatchNode(t[d + 1..])
      case None => None
      case Some(parent) =>
        match MatchPositions(parent.2)
        case None => None
        case Some(ps) =>
          match MatchNode(ps.2)
          case None => None
          case Some(child) => Some(LinkFields(doc, parent.0, parent.1, ps.0, ps.1, child.0, child.1))
  }

  /** `link_pattern.search(t)`: the match at the first position where there is one. */
  function SearchLink(t: string): Option<LinkFields>
    decreases |t|
  {
    if MatchLink(t).Some? then MatchLink(t)
    else if |t| == 0 then None
    else SearchLink(t[1..])
  }

  /** `s.split("|")[0]`: the text before the first `|`. */
  function FirstAlternative(s: string): (r: string)
    ensures r <= s && forall k | 0 <= k < |r| :: r[k] != '|'
    ensures |r| < |s| ==> s[|r|] == '|'
  {
    if |s| == 0 || s[0] == '|' then "" else [s[0]] + FirstAlternative(s[1..])
  }

  /** The tuple `parse_link` returns; the replaced atoms are kept as their codes. */
  datatype LinkRecord = LinkRecord(
    docIndex: Option<string>,
    parentIndex: string,
    parentAtom: char,
    parentPosition: int,
    childIndex: string,
    childAtom: char,
    childPosition: int)

  /** `int(position.split("|")[0])`: only the first of the alternatives is kept. */
  function FirstPosition(position: string): Result<int, ReadError> {
    match ParseInt(FirstAlternative(position))
    case Some(n) => Ok(n)
    case None => Err(NotAnInteger(FirstAlternative(position)))
  }

  /**
   * `parse_link(line)`: a line the pattern cannot match is a `GlycoCTError`,
   * and a first alternative `int()` refuses raises ValueError, the parent's
   * before the child's.
   */
  function ParseLink(line: string): Result<LinkRecord, ReadError> {
    match SearchLink(line)
    case None => Err(FormatError("Could not interpret link", line))
    case Some(f) =>
      match FirstPosition(f.parentPosition)
      case Err(e) => Err(e)
      case Ok(pp) =>
        match FirstPosition(f.childPosition)
        case Err(e) => Err(e)
        case Ok(cp) => Ok(LinkRecord(f.docIndex, f.parentIndex, f.parentAtom, pp, f.childIndex, f.childAtom, cp))
  }

  // ---------------------------------------------------------------------------
  // Writing a link line and reading it back

  /** A link as the template writes it, with every alternative of each attachment position. */
  datatype LinkDescription = LinkDescription(
    id: nat,
    parent: nat,
    parentAtom: char,
    parentPositions: seq<int>,
    childPositions: seq<int>,
    child: nat,
    childAtom: char)

  /** The alternatives of a position joined with `|`. */
  function Alternatives(ps: seq<int>): string
    requires 0 < |ps|
  {
    if |ps| == 1 then IntToString(ps[0]) else IntToString(ps[0]) + ("|" + Alternatives(ps[1..]))
  }

  /** The link template `{id}:{parent}{parent_atom}({parent_position}+{child_position}){child}{child_atom}`. */
  function LinkLine(l: LinkDescription): string
    requires 0 < |l.parentPositions| && 0 < |l.childPositions|
  {
    LinkText(l.id, l.parent, l.parentAtom, Alternatives(l.parentPositions), Alternatives(l.childPositions), l.child, l.childAtom)
  }

  /** The link template over the texts of the two positions. */
  function LinkText(id: nat, parent: nat, parentAtom: char, p: string, q: string, child: nat, childAtom: char): string {
    NatString(id) + (":" + (NatString(parent) + ([parentAtom] + PositionsText(p, q, child, childAtom))))
  }

  /** The template from the opening parenthesis on. */
  function PositionsText(p: string, q: string, child: nat, childAtom: char): string {
    "(" + ((p + ("+" + q)) + (")" + (NatString(child) + [childAtom])))
  }

  predicate WritableLink(l: LinkDescription) {
    IsAtomCode(l.parentAtom) && IsAtomCode(l.childAtom) && 0 < |l.parentPositions| && 0 < |l.childPositions|
  }

  /** The record a written link should read back as: the first alternative of each position. */
  function ExpectedLink(l: LinkDescription): LinkRecord
    requires 0 < |l.parentPositions| && 0 < |l.childPositions|
  {
    LinkRecord(Some(NatString(l.id)), NatString(l.parent), l.parentAtom, l.parentPositions[0],
               NatString(l.child), l.childAtom, l.childPositions[0])
  }

  /** `str(n)` is written with digits and a leading minus only. */
  lemma IntToStringPosition(n: int)
    ensures IsPositionText(IntToString(n))
  {
    var s := IntToString(n);
    if n < 0 {
      forall k | 0 <= k < |s|
        ensures IsPositionChar(s[k])
      {
        if k > 0 {
          assert s[k] == NatString(-n)[k - 1];
        }
      }
    }
  }

  /** The text before the first `|` of a piece without one, followed by `|` and anything. */
  lemma {:induction false} FirstAlternativeOf(x: string, rest: string)
    requires forall k | 0 <= k < |x| :: x[k] != '|'
    requires rest == "" || rest[0] == '|'
    ensures FirstAlternative(x + rest) == x
  {
    if |x| > 0 {
      assert (x + rest)[1..] == x[1..] + rest;
      FirstAlternativeOf(x[1..], rest);
    } else {
      assert x + rest == rest;
    }
  }

  /** Alternatives joined with `|` are a position text, and the first of them is the first one written. */
  lemma {:induction false} AlternativesFacts(ps: seq<int>)
    requires 0 < |ps|
    ensures IsPositionText(Alternatives(ps))
    ensures FirstAlternative(Alternatives(ps)) == IntToString(ps[0])
  {
    var x := IntToString(ps[0]);
    IntToStringPosition(ps[0]);
    assert forall k | 0 <= k < |x| :: x[k] != '|';
    if |ps| == 1 {
      FirstAlternativeOf(x, "");
      assert x + "" == x;
    } else {
      AlternativesFacts(ps[1..]);
      var t := x + ("|" + Alternatives(ps[1..]));
      forall k | 0 <= k < |t|
        ensures IsPositionChar(t[k])
      {
        if k > |x| {
          assert t[k] == Alternatives(ps[1..])[k - |x| - 1];
        }
      }
      FirstAlternativeOf(x, "|" + Alternatives(ps[1..]));
    }
  }

  /** The backtracking settles on the one `+` between two position texts. */
  lemma {:induction false} SeparatorOf(p: string, q: string, j: nat)
    requires IsPositionText(p) && IsPositionText(q) && |p| <= j < |p + ("+" + q)|
    ensures Separator(p + ("+" + q), j) == Some(|p|)
    decreases j
  {
    var inside := p + ("+" + q);
    if j == |p| {
      assert inside[..j] == p;
      assert inside[j + 1..] == q;
    } else {
      assert inside[..j][|p|] == '+';
      SeparatorOf(p, q, j - 1);
    }
  }

  /** The parenthesised positions as the template writes them. */
  lemma MatchPositionsOf(p: string, q: string, rest: string)
    requires IsPositionText(p) && IsPositionText(q)
    ensures MatchPositions("(" + ((p + ("+" + q)) + (")" + rest))) == Some((p, q, rest))
  {
    var inside := p + ("+" + q);
    var t := "(" + (inside + (")" + rest));
    forall k | 0 <= k < |inside|
      ensures InParentheses(inside[k])
    {
      if k < |p| {
        assert inside[k] == p[k];
      } else if k > |p| {
        assert inside[k] == q[k - |p| - 1];
      }
    }
    PrefixSpan(inside, ")" + rest, InParentheses);
    var w := inside + (")" + rest);
    assert t[1..] == w;
    assert w[|inside|] == ')' && w[..|inside|] == inside;
    assert w[|inside| + 1..] == rest;
    SeparatorOf(p, q, |inside| - 1);
    assert inside[..|p|] == p && inside[|p| + 1..] == q;
  }

  /** A residue index and atom as the template writes them. */
  lemma MatchNodeOf(ix: nat, atom: char, rest: string)
    requires IsAtomCode(atom)
    ensures MatchNode(NatString(ix) + ([atom] + rest)) == Some((NatString(ix), atom, rest))
  {
    var t := NatString(ix) + ([atom] + rest);
    PrefixSpan(NatString(ix), [atom] + rest, IsDigit);
    assert t[|NatString(ix)|] == atom && t[..|NatString(ix)|] == NatString(ix);
    assert t[|NatString(ix)| + 1..] == rest;
  }

  /** A document index and a colon, then the three groups of a link, make a match. */
  lemma MatchLinkSteps(t: string, ix: string, body: string, parent: (string, char, string),
                       ps: (string, string, string), child: (string, char, string))
    requires 0 < |ix| < |t| && Span(t, 0, IsDigit) == |ix| && t[|ix|] == ':' && t[..|ix|] == ix && t[|ix| + 1..] == body
    requires MatchNode(body) == Some(parent) && MatchPositions(parent.2) == Some(ps) && MatchNode(ps.2) == Some(child)
    ensures MatchLink(t) == Some(LinkFields(Some(ix), parent.0, parent.1, ps.0, ps.1, child.0, child.1))
  {
  }

  /** A written document index runs up to the colon after it. */
  lemma DocIndexOf(id: nat, body: string)
    ensures var (ix, t) := (NatString(id), NatString(id) + (":" + body));
      0 < |ix| < |t| && Span(t, 0, IsDigit) == |ix| && t[|ix|] == ':' && t[..|ix|] == ix && t[|ix| + 1..] == body
  {
    var ix, t := NatString(id), NatString(id) + (":" + body);
    PrefixSpan(ix, ":" + body, IsDigit);
    assert t[|ix|] == ':' && t[..|ix|] == ix;
    assert t[|ix| + 1..] == body;
  }

  /** A residue index and atom at the end of the line. */
  lemma MatchNodeLast(ix: nat, atom: char)
    requires IsAtomCode(atom)
    ensures MatchNode(NatString(ix) + [atom]) == Some((NatString(ix), atom, ""))
  {
    MatchNodeOf(ix, atom, "");
    assert NatString(ix) + ([atom] + "") == NatString(ix) + [atom];
  }

  /** The pattern reads every group of a written link back. */
  lemma MatchLinkText(id: nat, parent: nat, parentAtom: char, p: string, q: string, child: nat, childAtom: char)
    requires IsAtomCode(parentAtom) && IsAtomCode(childAtom) && IsPositionText(p) && IsPositionText(q)
    ensures MatchLink(LinkText(id, parent, parentAtom, p, q, child, childAtom))
         == Some(LinkFields(Some(NatString(id)), NatString(parent), parentAtom, p, q, NatString(child), childAtom))
  {
    var ix, tail := NatString(id), PositionsText(p, q, child, childAtom);
    var body := NatString(parent) + ([parentAtom] + tail);
    var t := ix + (":" + body);
    DocIndexOf(id, body);
    MatchNodeOf(parent, parentAtom, tail);
    MatchPositionsOf(p, q, NatString(child) + [childAtom]);
    MatchNodeLast(child, childAtom);
    MatchLinkSteps(t, ix, body, (NatString(parent), parentAtom, tail), (p, q, NatString(child) + [childAtom]),
                   (NatString(child), childAtom, ""));
  }

  /** A written link line is parsed from its first position on: the first alternative of each position decides. */
  lemma ParseLinkText(id: nat, parent: nat, parentAtom: char, p: string, q: string, child: nat, childAtom: char)
    requires IsAtomCode(parentAtom) && IsAtomCode(childAtom) && IsPositionText(p) && IsPositionText(q)
    ensures ParseLink(LinkText(id, parent, parentAtom, p, q, child, childAtom))
         == match FirstPosition(p)
            case Err(e) => Err(e)
            case Ok(pp) =>
              match FirstPosition(q)
              case Err(e) => Err(e)
              case Ok(cp) => Ok(LinkRecord(Some(NatString(id)), NatString(parent), parentAtom, pp, NatString(child), childAtom, cp))
  {
    MatchLinkText(id, parent, parentAtom, p, q, child, childAtom);
  }

  /**
   * Writing a link with the link template and parsing the line back gives
   * its document index, both residue indices and atoms, and the first
   * alternative of each attachment position.
   */
  lemma ParseLinkLine(l: LinkDescription)
    requires WritableLink(l)
    ensures ParseLink(LinkLine(l)) == Ok(ExpectedLink(l))
  {
    AlternativesFacts(l.parentPositions);
    AlternativesFacts(l.childPositions);
    ParseLinkText(l.id, l.parent, l.parentAtom, Alternatives(l.parentPositions), Alternatives(l.childPositions), l.child, l.childAtom);
    ParseIntToString(l.parentPositions[0]);
    ParseIntToString(l.childPositions[0]);
  }

  /**
   * `parse_link` fails with a `GlycoCTError` exactly when no link matches;
   * every other failure is the ValueError of an attachment position.
   */
  lemma ParseLinkErrors(line: string)
    ensures ParseLink(line).Err? && IsGlycoCTError(ParseLink(line).error) <==> SearchLink(line).None?
    ensures ParseLink(line).Err? && SearchLink(line).Some? ==> ParseLink(line).error.NotAnInteger?
  {
  }

  /** A position `int()` refuses as its first alternative stops the link, here an unknown parent position written as a bare dash. */
  lemma DashPositionRaises(line: string)
    requires line == "1:1o(-+1)2d"
    ensures SearchLink(line).Some?
    ensures ParseLink(line) == Err(NotAnInteger("-"))
  {
    assert NatString(1) == "1" && NatString(2) == "2";
    assert line == LinkText(1, 1, 'o', "-", "1", 2, 'd');
    MatchLinkText(1, 1, 'o', "-", "1", 2, 'd');
    ParseLinkText(1, 1, 'o', "-", "1", 2, 'd');
    assert FirstAlternative("-") == "-";
    DashIsNotAnInteger("-");
  }

  lemma DashIsNotAnInteger(s: string)
    requires s == "-"
    ensures ParseInt(s) == None
  {
    assert StripLeft(s) == s;
    assert StripRight(s) == s;
    assert |s[1..]| == 0;
  }

  /** A written link line has the shape the reader sends to `handle_linkage`. */
  lemma LinkLineShape(l: LinkDescription)
    requires WritableLink(l)
    ensures IsLinkageLine(LinkLine(l))
  {
    var ix, body := NatString(l.id), NatString(l.parent) + ([l.parentAtom] + PositionsText(Alternatives(l.parentPositions), Alternatives(l.childPositions), l.child, l.childAtom));
    var t := ix + (":" + body);
    PrefixSpan(ix, ":" + body, IsDigit);
    assert t[|ix|] == ':';
    assert t[|ix| + 1] == NatString(l.parent)[0];
  }
}
