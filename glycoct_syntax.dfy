/**
 * The text layer of the condensed GlycoCT reader (pygly2/io/glycoct.py):
 * splitting the input into tokens, the line shapes the parser dispatches on,
 * `try_int`, the residue-line pattern with its modification list, and
 * `parse_link`. Each regular expression of the reader is written out as a
 * recogniser over the characters. Where a pattern could backtrack, the
 * recogniser takes the one match the backtracking can end in. Every group is
 * greedy, and each is followed by a character its own class excludes.
 */
module GlycoCTSyntax {
  import opened Wrappers
  import opened Numerals
  import opened MultiMaps

  // ---------------------------------------------------------------------------
  // Errors

  /**
   * What the reader raises. `FormatError` is `GlycoCTError` and
   * `SectionUnsupported` is its subclass `GlycoCTSectionUnsupported`. The
   * others are Python's own AttributeError, ValueError and KeyError escaping
   * from the reader.
   */
  datatype ReadError =
    | FormatError(message: string, text: string)
    | SectionUnsupported(section: string)
    | NoResidueMatch(text: string)
    | NotAnInteger(text: string)
    | MissingNode(index: string)

  /** Caught by `except GlycoCTError`. */
  predicate IsGlycoCTError(e: ReadError) {
    e.FormatError? || e.SectionUnsupported?
  }

  // ---------------------------------------------------------------------------
  // Character runs

  /** The length of the run of characters of `s` from `i` on that satisfy `p`. */
  function Span(s: string, i: nat, p: char -> bool): (n: nat)
    requires i <= |s|
    ensures i + n <= |s|
    decreases |s| - i
  {
    if i < |s| && p(s[i]) then 1 + Span(s, i + 1, p) else 0
  }

  /** Every character of a run satisfies `p`, and the character after it, if any, does not. */
  lemma {:induction false} SpanFacts(s: string, i: nat, p: char -> bool)
    requires i <= |s|
    ensures forall k | i <= k < i + Span(s, i, p) :: p(s[k])
    ensures i + Span(s, i, p) == |s| || !p(s[i + Span(s, i, p)])
    decreases |s| - i
  {
    if i < |s| && p(s[i]) {
      SpanFacts(s, i + 1, p);
    }
  }

  /** A run is as long as the stretch of characters that satisfy `p` and end where one does not. */
  lemma {:induction false} SpanIs(s: string, i: nat, n: nat, p: char -> bool)
    requires i + n <= |s|
    requires forall k | i <= k < i + n :: p(s[k])
    requires i + n == |s| || !p(s[i + n])
    ensures Span(s, i, p) == n
    decreases n
  {
    if n > 0 {
      SpanIs(s, i + 1, n - 1, p);
    }
  }

  /** The run over a piece `x` written between `pre` and `post` covers `x` exactly. */
  lemma SpanOver(pre: string, x: string, post: string, p: char -> bool)
    requires forall k | 0 <= k < |x| :: p(x[k])
    requires |post| == 0 || !p(post[0])
    ensures Span(pre + x + post, |pre|, p) == |x|
  {
    var s := pre + x + post;
    forall k | |pre| <= k < |pre| + |x|
      ensures p(s[k])
    {
      assert s[k] == x[k - |pre|];
    }
    if |post| > 0 {
      assert s[|pre| + |x|] == post[0];
    }
    SpanIs(s, |pre|, |x|, p);
  }

  // ---------------------------------------------------------------------------
  // Tokens

  /** The characters `re.split(r"\s|;", line)` splits on. */
  predicate IsSeparator(c: char) {
    IsSpace(c) || c == ';'
  }

  predicate InWord(c: char) {
    !IsSeparator(c)
  }

  /** A token: non-empty, without whitespace or `;`. */
  predicate IsWord(t: string) {
    |t| > 0 && forall k | 0 <= k < |t| :: InWord(t[k])
  }

  /**
   * `re.split(r"\s|;", line)` with the empty pieces dropped: the maximal
   * runs of non-separators, in order.
   */
  function Tokens(s: string): (ts: seq<string>)
    ensures forall k | 0 <= k < |ts| :: IsWord(ts[k])
    decreases |s|
  {
    if |s| == 0 then []
    else if IsSeparator(s[0]) then Tokens(s[1..])
    else
      var n := Span(s, 0, InWord);
      SpanFacts(s, 0, InWord);
      [s[..n]] + Tokens(s[n..])
  }

  /** `_read`: the tokens of every line of the stream, line by line. */
  function ReadTokens(lines: seq<string>): seq<string> {
    if |lines| == 0 then [] else Tokens(lines[0]) + ReadTokens(lines[1..])
  }

  function Concat(lines: seq<string>): string {
    if |lines| == 0 then "" else lines[0] + Concat(lines[1..])
  }

  /** A line that ends in a separator splits on its own as it does inside longer text. */
  predicate EndsInSeparator(s: string) {
    |s| == 0 || IsSeparator(s[|s| - 1])
  }

  lemma {:induction false} TokensConcat(a: string, b: string)
    requires EndsInSeparator(a)
    ensures Tokens(a + b) == Tokens(a) + Tokens(b)
    decreases |a|
  {
    if |a| == 0 {
      assert a + b == b;
    } else if IsSeparator(a[0]) {
      assert (a + b)[1..] == a[1..] + b;
      TokensConcat(a[1..], b);
    } else {
      var m := Span(a, 0, InWord);
      SpanFacts(a, 0, InWord);
      assert m < |a|;
      SpanOver([], a[..m], a[m..] + b, InWord);
      assert [] + a[..m] + (a[m..] + b) == a + b;
      assert (a + b)[..m] == a[..m];
      assert (a + b)[m..] == a[m..] + b;
      TokensConcat(a[m..], b);
    }
  }

  /**
   * Reading line by line gives the tokens of the whole text, because every
   * line but the last ends in its newline.
   */
  lemma {:induction false} ReadTokensIsTokens(lines: seq<string>)
    requires forall k | 0 <= k < |lines| - 1 :: |lines[k]| > 0 && lines[k][|lines[k]| - 1] == '\n'
    ensures ReadTokens(lines) == Tokens(Concat(lines))
  {
    if |lines| > 0 {
      ReadTokensIsTokens(lines[1..]);
      if |lines| > 1 {
        TokensConcat(lines[0], Concat(lines[1..]));
      } else {
        assert Concat(lines) == lines[0] + "";
        assert lines[0] + "" == lines[0];
        assert Tokens("") == [];
      }
    }
  }

  /** Tokens written one after another, each followed by a space. */
  function Unwords(ts: seq<string>): string {
    if |ts| == 0 then "" else ts[0] + " " + Unwords(ts[1..])
  }

  /** Splitting text made of tokens separated by spaces gives the tokens back. */
  lemma {:induction false} TokensUnwords(ts: seq<string>)
    requires forall k | 0 <= k < |ts| :: IsWord(ts[k])
    ensures Tokens(Unwords(ts)) == ts
  {
    if |ts| > 0 {
      var w := ts[0];
      TokensUnwords(ts[1..]);
      TokensConcat(w + " ", Unwords(ts[1..]));
      SpanOver([], w, " ", InWord);
      assert [] + w + " " == w + " ";
      assert (w + " ")[..|w|] == w;
      assert (w + " ")[|w|..] == " ";
      assert Tokens(" ") == Tokens("");
    }
  }

  /** `line.strip()` */
  function Strip(s: string): string {
    StripRight(StripLeft(s))
  }

  /** Stripping a token changes nothing, so the reader's keyword tests see the token itself. */
  lemma StripWord(t: string)
    requires IsWord(t)
    ensures Strip(t) == t
  {
    assert !IsSpace(t[0]) && !IsSpace(t[|t| - 1]);
  }

  // ---------------------------------------------------------------------------
  // Line shapes

  /** `^(\d+)` followed by `tag`: the only run the backtracking can settle on is the longest. */
  predicate IndexThen(s: string, tag: string) {
    var d := Span(s, 0, IsDigit);
    0 < d && d + |tag| <= |s| && s[d..d + |tag|] == tag
  }

  /** `re.search(r"^(\d+)b", line)` */
  predicate IsResidueLine(s: string) {
    IndexThen(s, "b")
  }

  /** `re.search(r"^(\d+)s:", line)` */
  predicate IsSubstituentLine(s: string) {
    IndexThen(s, "s:")
  }

  /** `re.search(r"^(\d+)r:", line)` */
  predicate IsRepeatLine(s: string) {
    IndexThen(s, "r:")
  }

  /** `re.search(r"^(\d+):(\d+)", line)` */
  predicate IsLinkageLine(s: string) {
    var d := Span(s, 0, IsDigit);
    0 < d && d < |s| && s[d] == ':' && 0 < Span(s, d + 1, IsDigit)
  }

  /** A line has at most one of the four shapes, since each is told apart by the character after the index. */
  lemma ShapesExclusive(s: string)
    ensures IsResidueLine(s) ==> !IsSubstituentLine(s) && !IsRepeatLine(s) && !IsLinkageLine(s)
    ensures IsSubstituentLine(s) ==> !IsRepeatLine(s) && !IsLinkageLine(s)
    ensures IsRepeatLine(s) ==> !IsLinkageLine(s)
  {
    var d := Span(s, 0, IsDigit);
    if IsResidueLine(s) || IsSubstituentLine(s) || IsRepeatLine(s) {
      assert s[d] == s[d..d + 1][0];
    }
  }

  /** A line of any of the four shapes begins with a digit. */
  lemma ShapedLineStartsWithDigit(s: string)
    requires IsResidueLine(s) || IsSubstituentLine(s) || IsRepeatLine(s) || IsLinkageLine(s)
    ensures |s| > 0 && IsDigit(s[0])
  {
  }

  // ---------------------------------------------------------------------------
  // try_int

  /** An int, or the text `int()` refused. */
  datatype Scalar = Int(n: int) | Text(s: string)

  /** `try_int(v)`: `int(v)`, or `v` itself when that raises. */
  function TryInt(v: string): (r: Scalar)
    ensures r.Int? <==> ParseInt(v).Some?
    ensures r.Text? ==> r.s == v
  {
    match ParseInt(v)
    case Some(n) => Int(n)
    case None => Text(v)
  }

  /** How a scalar is written back: `str(n)` for an int, the text itself otherwise. */
  function ScalarText(v: Scalar): string {
    match v
    case Int(n) => IntToString(n)
    case Text(s) => s
  }

  /** `try_int` reads back every int and every text `int()` refuses. */
  lemma TryIntScalarText(v: Scalar)
    requires v.Text? ==> ParseInt(v.s).None?
    ensures TryInt(ScalarText(v)) == v
  {
    if v.Int? {
      ParseIntToString(v.n);
    }
  }

  // ---------------------------------------------------------------------------
  // Residue lines

  predicate IsAnomerCode(c: char) {
    c == 'a' || c == 'b' || c == 'x' || c == 'o'
  }

  predicate IsConfigurationCode(c: char) {
    c == 'd' || c == 'l' || c == 'x'
  }

  predicate IsLower(c: char) {
    'a' <= c <= 'z'
  }

  predicate IsUpper(c: char) {
    'A' <= c <= 'Z'
  }

  /** `[0-9x]`: a ring bound or modification position. */
  predicate IsIndexChar(c: char) {
    IsDigit(c) || c == 'x'
  }

  /** `[0-9a-z]`: a modification code. */
  predicate IsCodeChar(c: char) {
    IsDigit(c) || IsLower(c)
  }

  /** `[^\|;\n]`: the value of one `modification_pattern` match. */
  predicate IsModificationValueChar(c: char) {
    c != '|' && c != ';' && c != '\n'
  }

  /** The named groups of one `res_pattern` match; an absent `modifications` group is the empty text. */
  datatype ResidueFields = ResidueFields(
    anomer: Option<char>,
    confStem: seq<(char, string)>,
    superclass: string,
    ringStart: string,
    ringEnd: string,
    modifications: string)

  /** One `-[dlx][a-z]+` at the start of `t`: the configuration, the stem and the length matched. */
  function ConfStemUnit(t: string): (r: Option<(char, string, nat)>)
    ensures r.Some? ==> 0 < r.value.2 <= |t|
  {
    if 2 < |t| && t[0] == '-' && IsConfigurationCode(t[1]) && IsLower(t[2]) then
      var n := Span(t, 2, IsLower);
      Some((t[1], t[2..][..n], 2 + n))
    else None
  }

  /**
   * `(?:-[dlx][a-z]+)+`, taken as often as it matches: the
   * (configuration, stem) pairs, which `conf_stem_pattern.findall` splits
   * the group into, and the length of the text they cover.
   */
  function ConfStems(t: string): (r: (seq<(char, string)>, nat))
    ensures r.1 <= |t|
    decreases |t|
  {
    match ConfStemUnit(t)
    case None => ([], 0)
    case Some(u) =>
      var rest := ConfStems(t[u.2..]);
      ([(u.0, u.1)] + rest.0, u.2 + rest.1)
  }

  /** One `\|[0-9x]+:[0-9a-z]+` at the start of `t`: the length matched, 0 for none. */
  function ModUnit(t: string): (n: nat)
    ensures n <= |t|
  {
    if 0 < |t| && t[0] == '|' then
      var a := Span(t, 1, IsIndexChar);
      if 0 < a && 1 + a < |t| && t[1 + a] == ':' then
        var b := Span(t, 2 + a, IsCodeChar);
        if 0 < b then 2 + a + b else 0
      else 0
    else 0
  }

  /** `(\|[0-9x]+:[0-9a-z]+)+`, taken as often as it matches: the length of the text it covers. */
  function ModsSpan(t: string): (n: nat)
    ensures n <= |t|
    decreases |t|
  {
    var u := ModUnit(t);
    if u == 0 then 0 else u + ModsSpan(t[u..])
  }

  /** `-?`: the text after an optional dash. */
  function SkipDash(t: string): (r: string)
    ensures |r| <= |t|
  {
    if 0 < |t| && t[0] == '-' then t[1..] else t
  }

  /** `[0-9x]+:[0-9x]+` at the start of `t`: the two ring bounds and the text after them. */
  function MatchIndices(t: string): Option<(string, string, string)> {
    var a := Span(t, 0, IsIndexChar);
    if a == 0 || a >= |t| || t[a] != ':' then None
    else
      var u := t[a + 1..];
      var b := Span(u, 0, IsIndexChar);
      if b == 0 then None else Some((t[..a], u[..b], u[b..]))
  }

  /** `-?[A-Z]+-?` and then the indices: the superclass, the ring bounds and the text after them. */
  function MatchSuperclass(t: string): Option<(string, string, string, string)> {
    var t1 := SkipDash(t);
    var u := Span(t1, 0, IsUpper);
    if u == 0 then None
    else
      match MatchIndices(SkipDash(t1[u..]))
      case None => None
      case Some(ix) => Some((t1[..u], ix.0, ix.1, ix.2))
  }

  /** `res_pattern` matched at the start of `t`. */
  function MatchResidue(t: string): Option<ResidueFields> {
    if 0 < |t| && IsAnomerCode(t[0]) then MatchAfterAnomer(t[1..], Some(t[0])) else MatchAfterAnomer(t, None)
  }

  /** The rest of `res_pattern` over the text after the optional anomer. */
  function MatchAfterAnomer(t: string, anomer: Option<char>): Option<ResidueFields> {
    var cs := ConfStems(t);
    match MatchSuperclass(t[cs.1..])
    case None => None
    case Some(g) =>
      var ml := ModsSpan(g.3);
      Some(ResidueFields(anomer, cs.0, g.0, g.1, g.2, g.3[..ml]))
  }

  /** `res_pattern.search(t)`: the match at the first position where there is one. */
  function SearchResidue(t: string): Option<ResidueFields>
    decreases |t|
  {
    if MatchResidue(t).Some? then MatchResidue(t)
    else if |t| == 0 then None
    else SearchResidue(t[1..])
  }

  /**
   * One `modification_pattern` match at the start of `t`: the position text,
   * the code and the length matched. As written the position is `\d+`
   * (`position` is `IsDigit`); the correction reads `[0-9x]+`.
   */
  function MatchModification(t: string, position: char -> bool): (r: Option<(string, string, nat)>)
    ensures r.Some? ==> 0 < r.value.2 <= |t|
  {
    var j := if 0 < |t| && t[0] == '|' then 1 else 0;
    var d := Span(t, j, position);
    if d == 0 || j + d >= |t| || t[j + d] != ':' then None
    else
      var v := Span(t, j + d + 1, IsModificationValueChar);
      if v == 0 then None
      else Some((t[j..][..d], t[j + d + 1..][..v], j + d + 1 + v))
  }

  /** `modification_pattern.findall(t)` */
  function FindModifications(t: string, position: char -> bool): seq<(string, string)>
    decreases |t|
  {
    if |t| == 0 then []
    else
      match MatchModification(t, position)
      case Some(m) => [(m.0, m.1)] + FindModifications(t[m.2..], position)
      case None => FindModifications(t[1..], position)
  }

  /** The found modifications with `try_int` applied to each position. */
  function Keyed(found: seq<(string, string)>): (r: seq<(Scalar, string)>)
    ensures |r| == |found|
    ensures forall k | 0 <= k < |r| :: r[k] == (TryInt(found[k].0), found[k].1)
  {
    if |found| == 0 then [] else [(TryInt(found[0].0), found[0].1)] + Keyed(found[1..])
  }

  /** The OrderedMultiMap the decoding loop fills, one `modifications[p] = mod` per item. */
  function PutAll(items: seq<(Scalar, string)>): MultiMap<Scalar, string> {
    if |items| == 0 then Empty()
    else
      var last := items[|items| - 1];
      Put(PutAll(items[..|items| - 1]), last.0, last.1)
  }

  /**
   * What `handle_residue_line` hands to the Monosaccharide constructor: the
   * document index and the id read from it, then the decoded groups. The
   * anomer, superclass and modification codes are kept as the patterns
   * match them: the code tables they are looked up in are not modelled.
   */
  datatype ResidueRecord = ResidueRecord(
    index: string,
    id: int,
    anomer: Option<char>,
    configuration: seq<char>,
    stem: seq<string>,
    superclass: string,
    ringStart: Scalar,
    ringEnd: Scalar,
    modifications: MultiMap<Scalar, string>,
    reduced: bool)

  function Firsts(pairs: seq<(char, string)>): (r: seq<char>)
    ensures |r| == |pairs| && forall k | 0 <= k < |r| :: r[k] == pairs[k].0
  {
    if |pairs| == 0 then [] else [pairs[0].0] + Firsts(pairs[1..])
  }

  function Seconds(pairs: seq<(char, string)>): (r: seq<string>)
    ensures |r| == |pairs| && forall k | 0 <= k < |r| :: r[k] == pairs[k].1
  {
    if |pairs| == 0 then [] else [pairs[0].1] + Seconds(pairs[1..])
  }

  /** `"aldi" in modifications[1]`, then `modifications.pop(1, "aldi")`. */
  function WithoutAldi(table: MultiMap<Scalar, string>): (MultiMap<Scalar, string>, bool) {
    if "aldi" in Get(table, Int(1)) then
      match Pop(table, Int(1), "aldi")
      case Ok(p) => (p.0, true)
      case Err(_) => (table, true)
    else (table, false)
  }

  /** The record built from the fields of a `res_pattern` match. */
  function RecordOf(ix: string, f: ResidueFields, position: char -> bool): ResidueRecord
    requires forall k | 0 <= k < |ix| :: IsDigit(ix[k])
  {
    var table := PutAll(Keyed(FindModifications(f.modifications, position)));
    var stripped := WithoutAldi(table);
    var config := if |f.confStem| == 0 then ['x'] else Firsts(f.confStem);
    var stem := if |f.confStem| == 0 then ["x"] else Seconds(f.confStem);
    ResidueRecord(ix, DigitsValue(ix), f.anomer, config, stem, f.superclass,
                  TryInt(f.ringStart), TryInt(f.ringEnd), stripped.0, stripped.1)
  }

  /** The index `^(\d+)b` splits off a residue line, and the text after the `b`. */
  function SplitIndex(line: string): (r: (string, string))
    requires IsResidueLine(line)
    ensures 0 < |r.0| && forall k | 0 <= k < |r.0| :: IsDigit(r.0[k])
  {
    var d := Span(line, 0, IsDigit);
    SpanFacts(line, 0, IsDigit);
    (line[..d], line[d + 1..])
  }

  /**
   * `handle_residue_line` up to the constructor call, as written: a line
   * `res_pattern` cannot match fails on `None.groupdict()` with an
   * AttributeError, and a modification at position `x` is not found.
   */
  function DecodeResidueAsWritten(line: string): Result<ResidueRecord, ReadError>
    requires IsResidueLine(line)
  {
    var (ix, rest) := SplitIndex(line);
    match SearchResidue(rest)
    case None => Err(NoResidueMatch(rest))
    case Some(f) => Ok(RecordOf(ix, f, IsDigit))
  }

  /**
   * `handle_residue_line` up to the constructor call, corrected: an
   * unreadable residue is a `GlycoCTError`, as an unreadable link is, and
   * modification positions are read as the residue pattern admits them.
   */
  function DecodeResidue(line: string): Result<ResidueRecord, ReadError>
    requires IsResidueLine(line)
  {
    var (ix, rest) := SplitIndex(line);
    match SearchResidue(rest)
    case None => Err(FormatError("Could not interpret residue", line))
    case Some(f) => Ok(RecordOf(ix, f, IsIndexChar))
  }

  // ---------------------------------------------------------------------------
  // Writing a residue line and reading it back

  /** What `Monosaccharide.to_glycoct` writes a residue line from, with every code as it is written. */
  datatype ResidueDescription = ResidueDescription(
    index: nat,
    anomer: char,
    confStem: seq<(char, string)>,
    superclass: string,
    ringStart: Scalar,
    ringEnd: Scalar,
    modifications: seq<(Scalar, string)>)

  /** `''.join("-{0}{1}".format(c.name, s.name) for c, s in zip(configuration, stem))` */
  function ConfStemText(pairs: seq<(char, string)>): string {
    if |pairs| == 0 then "" else "-" + [pairs[0].0] + pairs[0].1 + ConfStemText(pairs[1..])
  }

  /** `"|" + "|".join("{0}:{1}".format(k, v) ...)`, or nothing when there is no modification. */
  function ModificationText(items: seq<(Scalar, string)>): string {
    if |items| == 0 then ""
    else "|" + ScalarText(items[0].0) + ":" + items[0].1 + ModificationText(items[1..])
  }

  /** The residue template `{ix}b:{anomer}{conf_stem}-{superclass}-{ring_start}:{ring_end}{modifications}`. */
  function ResidueLine(d: ResidueDescription): string {
    NatString(d.index) + ("b:" + ResidueBody(d))
  }

  /** The residue template after `{ix}b:`. */
  function ResidueBody(d: ResidueDescription): string {
    [d.anomer] + (ConfStemText(d.confStem) + ResidueSuffix(d))
  }

  /** The template from the dash before the superclass on. */
  function ResidueSuffix(d: ResidueDescription): string {
    "-" + (d.superclass + ("-" + (ScalarText(d.ringStart) + (":" + (ScalarText(d.ringEnd) + ModificationText(d.modifications))))))
  }

  predicate IsStem(s: string) {
    |s| > 0 && forall k | 0 <= k < |s| :: IsLower(s[k])
  }

  predicate IsCode(s: string) {
    |s| > 0 && forall k | 0 <= k < |s| :: IsCodeChar(s[k])
  }

  predicate IsSuperclassCode(s: string) {
    |s| > 0 && forall k | 0 <= k < |s| :: IsUpper(s[k])
  }

  /** A ring bound or position the residue pattern admits and `try_int` gives back: an int from 0, or a text like `x`. */
  predicate WritableScalar(v: Scalar) {
    match v
    case Int(n) => 0 <= n
    case Text(s) => |s| > 0 && (forall k | 0 <= k < |s| :: IsIndexChar(s[k])) && ParseInt(s).None?
  }

  /**
   * A residue whose codes the template can write and the pattern read: at
   * least one configuration and stem pair, and no `aldi` at position 1 (the
   * parser moves that one into the reduced flag).
   */
  predicate Writable(d: ResidueDescription) {
    IsAnomerCode(d.anomer) &&
    0 < |d.confStem| &&
    (forall k | 0 <= k < |d.confStem| :: IsConfigurationCode(d.confStem[k].0) && IsStem(d.confStem[k].1)) &&
    IsSuperclassCode(d.superclass) &&
    WritableScalar(d.ringStart) && WritableScalar(d.ringEnd) &&
    (forall k | 0 <= k < |d.modifications| :: WritableScalar(d.modifications[k].0) && IsCode(d.modifications[k].1)) &&
    (Int(1), "aldi") !in d.modifications
  }

  /** The record a written residue should read back as. */
  function Expected(d: ResidueDescription): ResidueRecord {
    ResidueRecord(NatString(d.index), d.index, Some(d.anomer), Firsts(d.confStem), Seconds(d.confStem),
                  d.superclass, d.ringStart, d.ringEnd, PutAll(d.modifications), false)
  }

  lemma ScalarTextIndexChars(v: Scalar)
    requires WritableScalar(v)
    ensures IsIndexText(ScalarText(v))
  {
  }

  predicate IsIndexText(s: string) {
    |s| > 0 && forall k | 0 <= k < |s| :: IsIndexChar(s[k])
  }

  /** A written configuration and stem pair is one unit of the pattern. */
  lemma ConfStemUnitOf(c: char, st: string, rest: string)
    requires IsConfigurationCode(c) && IsStem(st)
    requires 0 < |rest| && rest[0] == '-'
    ensures ConfStemUnit("-" + [c] + st + rest) == Some((c, st, 2 + |st|))
    ensures ("-" + [c] + st + rest)[2 + |st|..] == rest
  {
    var t := "-" + [c] + st + rest;
    forall k | 2 <= k < 2 + |st|
      ensures IsLower(t[k])
    {
      assert t[k] == st[k - 2];
    }
    assert t[2 + |st|] == rest[0];
    SpanIs(t, 2, |st|, IsLower);
    assert t[2..][..|st|] == st;
  }

  lemma ConfStemsStep(t: string, u: (char, string, nat), rest: string)
    requires ConfStemUnit(t) == Some(u) && t[u.2..] == rest
    ensures ConfStems(t) == ([(u.0, u.1)] + ConfStems(rest).0, u.2 + ConfStems(rest).1)
  {
  }

  lemma ConfStemTextCons(pairs: seq<(char, string)>, post: string)
    requires 0 < |pairs|
    ensures ConfStemText(pairs) + post == "-" + [pairs[0].0] + pairs[0].1 + (ConfStemText(pairs[1..]) + post)
  {
  }

  lemma ConfStemsEnd(post: string)
    requires 1 < |post| && post[0] == '-' && !IsConfigurationCode(post[1])
    ensures ConfStems(post) == ([], 0)
  {
    assert ConfStemUnit(post) == None;
  }

  /** A written pair is the first unit, and the pattern carries on with the rest. */
  lemma ConfStemsCons(t: string, c: char, st: string, rest: string)
    requires t == "-" + [c] + st + rest
    requires IsConfigurationCode(c) && IsStem(st) && 0 < |rest| && rest[0] == '-'
    ensures ConfStems(t) == ([(c, st)] + ConfStems(rest).0, 2 + |st| + ConfStems(rest).1)
  {
    ConfStemUnitOf(c, st, rest);
    ConfStemsStep(t, (c, st, 2 + |st|), rest);
  }

  lemma ConfStemTextStart(pairs: seq<(char, string)>, post: string)
    requires 0 < |post| && post[0] == '-'
    ensures 0 < |ConfStemText(pairs) + post| && (ConfStemText(pairs) + post)[0] == '-'
  {
  }

  /** The step of the induction below, on values: the first unit joined to what the pattern reads from the rest. */
  lemma ConfStemsJoin(pairs: seq<(char, string)>, r: (seq<(char, string)>, nat), tail: (seq<(char, string)>, nat))
    requires 0 < |pairs|
    requires r == ([(pairs[0].0, pairs[0].1)] + tail.0, 2 + |pairs[0].1| + tail.1)
    requires tail == (pairs[1..], |ConfStemText(pairs[1..])|)
    ensures r == (pairs, |ConfStemText(pairs)|)
  {
    var head := pairs[0];
    assert [(head.0, head.1)] + pairs[1..] == pairs;
    assert ConfStemText(pairs) == "-" + [head.0] + head.1 + ConfStemText(pairs[1..]);
    assert r.1 == |ConfStemText(pairs)|;
  }

  lemma {:induction false} ConfStemsOf(pairs: seq<(char, string)>, post: string)
    requires forall k | 0 <= k < |pairs| :: IsConfigurationCode(pairs[k].0) && IsStem(pairs[k].1)
    requires 1 < |post| && post[0] == '-' && !IsConfigurationCode(post[1])
    ensures ConfStems(ConfStemText(pairs) + post) == (pairs, |ConfStemText(pairs)|)
  {
    if |pairs| == 0 {
      assert ConfStemText(pairs) + post == post;
      ConfStemsEnd(post);
    } else {
      var rest := ConfStemText(pairs[1..]) + post;
      assert IsConfigurationCode(pairs[0].0) && IsStem(pairs[0].1);
      ConfStemTextCons(pairs, post);
      ConfStemTextStart(pairs[1..], post);
      ConfStemsCons(ConfStemText(pairs) + post, pairs[0].0, pairs[0].1, rest);
      ConfStemsOf(pairs[1..], post);
      ConfStemsJoin(pairs, ConfStems(ConfStemText(pairs) + post), ConfStems(rest));
    }
  }

  /** A written modification is one unit of the pattern. */
  lemma ModUnitOf(p: string, v: string, rest: string)
    requires IsIndexText(p) && IsCode(v)
    requires rest == "" || rest[0] == '|'
    ensures ModUnit("|" + p + ":" + v + rest) == 2 + |p| + |v|
    ensures ("|" + p + ":" + v + rest)[2 + |p| + |v|..] == rest
  {
    var t := "|" + p + ":" + v + rest;
    forall k | 1 <= k < 1 + |p|
      ensures IsIndexChar(t[k])
    {
      assert t[k] == p[k - 1];
    }
    assert t[1 + |p|] == ':';
    SpanIs(t, 1, |p|, IsIndexChar);
    forall k | 2 + |p| <= k < 2 + |p| + |v|
      ensures IsCodeChar(t[k])
    {
      assert t[k] == v[k - 2 - |p|];
    }
    if rest != "" {
      assert t[2 + |p| + |v|] == rest[0];
    }
    SpanIs(t, 2 + |p|, |v|, IsCodeChar);
  }

  lemma ModsSpanStep(t: string, u: nat, rest: string)
    requires ModUnit(t) == u && 0 < u && t[u..] == rest
    ensures ModsSpan(t) == u + ModsSpan(rest)
  {
  }

  lemma {:induction false} ModsSpanOf(items: seq<(Scalar, string)>)
    requires forall k | 0 <= k < |items| :: WritableScalar(items[k].0) && IsCode(items[k].1)
    ensures ModsSpan(ModificationText(items)) == |ModificationText(items)|
  {
    if |items| > 0 {
      var t := ModificationText(items);
      var p := ScalarText(items[0].0);
      var v := items[0].1;
      ScalarTextIndexChars(items[0].0);
      var rest := ModificationText(items[1..]);
      assert rest == "" || rest[0] == '|';
      assert t == "|" + p + ":" + v + rest;
      ModUnitOf(p, v, rest);
      ModsSpanStep(t, 2 + |p| + |v|, rest);
      ModsSpanOf(items[1..]);
    }
  }

  /** The (position text, code) pairs the written modifications consist of. */
  function TextItems(items: seq<(Scalar, string)>): (r: seq<(string, string)>)
    ensures |r| == |items|
    ensures forall k | 0 <= k < |r| :: r[k] == (ScalarText(items[k].0), items[k].1)
  {
    if |items| == 0 then [] else [(ScalarText(items[0].0), items[0].1)] + TextItems(items[1..])
  }

  /** A match of `modification_pattern` read off the lengths of its runs. */
  lemma MatchModificationIs(t: string, position: char -> bool, d: nat, v: nat)
    requires 0 < |t| && t[0] == '|' && 0 < d && 1 + d < |t| && t[1 + d] == ':' && 0 < v
    requires Span(t, 1, position) == d && Span(t, 2 + d, IsModificationValueChar) == v
    ensures MatchModification(t, position) == Some((t[1..][..d], t[2 + d..][..v], 2 + d + v))
  {
  }

  /** Where the runs of a written modification `|p:v` followed by `rest` sit. */
  lemma ModificationTextFacts(t: string, p: string, v: string, rest: string)
    requires t == "|" + p + ":" + v + rest
    ensures |t| == 2 + |p| + |v| + |rest| && t[0] == '|' && t[1 + |p|] == ':'
    ensures t[1..][..|p|] == p && t[2 + |p|..][..|v|] == v && t[2 + |p| + |v|..] == rest
  {
    assert t[1..][..|p|] == p;
    assert t[2 + |p|..][..|v|] == v;
    assert t[2 + |p| + |v|..] == rest;
  }

  /** A position the residue pattern admits, made of characters `position` admits, which does not admit the colon after it. */
  predicate PositionText(p: string, position: char -> bool) {
    IsIndexText(p) && (forall k | 0 <= k < |p| :: position(p[k])) && !position(':')
  }

  lemma ModPositionSpan(p: string, v: string, rest: string, position: char -> bool)
    requires PositionText(p, position) && IsCode(v)
    ensures Span("|" + p + ":" + v + rest, 1, position) == |p|
  {
    var t := "|" + p + ":" + v + rest;
    forall k | 1 <= k < 1 + |p|
      ensures position(t[k])
    {
      assert t[k] == p[k - 1];
    }
    assert t[1 + |p|] == ':';
    SpanIs(t, 1, |p|, position);
  }

  lemma ModValueSpan(p: string, v: string, rest: string)
    requires IsIndexText(p) && IsCode(v)
    requires rest == "" || rest[0] == '|'
    ensures Span("|" + p + ":" + v + rest, 2 + |p|, IsModificationValueChar) == |v|
  {
    var t := "|" + p + ":" + v + rest;
    forall k | 2 + |p| <= k < 2 + |p| + |v|
      ensures IsModificationValueChar(t[k])
    {
      assert t[k] == v[k - 2 - |p|];
    }
    if rest != "" {
      assert t[2 + |p| + |v|] == rest[0];
    }
    SpanIs(t, 2 + |p|, |v|, IsModificationValueChar);
  }

  lemma MatchModificationAt(t: string, p: string, v: string, rest: string, position: char -> bool)
    requires |t| == 2 + |p| + |v| + |rest| && t[0] == '|' && t[1 + |p|] == ':'
    requires t[1..][..|p|] == p && t[2 + |p|..][..|v|] == v
    requires 0 < |p| && 0 < |v|
    requires Span(t, 1, position) == |p|
    requires Span(t, 2 + |p|, IsModificationValueChar) == |v|
    ensures MatchModification(t, position) == Some((p, v, 2 + |p| + |v|))
  {
    MatchModificationIs(t, position, |p|, |v|);
  }

  /** A written modification is one match of `modification_pattern` when the pattern admits its position. */
  lemma MatchModificationOf(p: string, v: string, rest: string, position: char -> bool)
    requires PositionText(p, position) && IsCode(v)
    requires rest == "" || rest[0] == '|'
    ensures MatchModification("|" + p + ":" + v + rest, position) == Some((p, v, 2 + |p| + |v|))
    ensures ("|" + p + ":" + v + rest)[2 + |p| + |v|..] == rest
  {
    var t := "|" + p + ":" + v + rest;
    ModificationTextFacts(t, p, v, rest);
    ModPositionSpan(p, v, rest, position);
    ModValueSpan(p, v, rest);
    MatchModificationAt(t, p, v, rest, position);
  }

  lemma FindModificationsStep(t: string, position: char -> bool, m: (string, string, nat), rest: string)
    requires MatchModification(t, position) == Some(m) && t[m.2..] == rest
    ensures FindModifications(t, position) == [(m.0, m.1)] + FindModifications(rest, position)
  {
  }

  /** `modification_pattern` finds every written modification whose position it admits, in order. */
  lemma {:induction false} FindModificationsOf(items: seq<(Scalar, string)>, position: char -> bool)
    requires forall k | 0 <= k < |items| :: PositionText(ScalarText(items[k].0), position) && IsCode(items[k].1)
    ensures FindModifications(ModificationText(items), position) == TextItems(items)
  {
    if |items| > 0 {
      var t := ModificationText(items);
      var p := ScalarText(items[0].0);
      var v := items[0].1;
      var rest := ModificationText(items[1..]);
      assert rest == "" || rest[0] == '|';
      assert t == "|" + p + ":" + v + rest;
      MatchModificationOf(p, v, rest, position);
      FindModificationsStep(t, position, (p, v, 2 + |p| + |v|), rest);
      FindModificationsOf(items[1..], position);
    }
  }

  lemma KeyedTextItems(items: seq<(Scalar, string)>)
    requires forall k | 0 <= k < |items| :: WritableScalar(items[k].0)
    ensures Keyed(TextItems(items)) == items
  {
    var r := Keyed(TextItems(items));
    forall k | 0 <= k < |items|
      ensures r[k] == items[k]
    {
      TryIntScalarText(items[k].0);
    }
  }

  /** Every value stored under a key comes from an item with that key. */
  lemma {:induction false} PutAllHolds(items: seq<(Scalar, string)>, key: Scalar, v: string)
    requires v in Get(PutAll(items), key)
    ensures (key, v) in items
  {
    if |items| > 0 {
      var init := items[..|items| - 1];
      var last := items[|items| - 1];
      if v !in Get(PutAll(init), key) {
        assert key == last.0 && v == last.1;
      } else {
        PutAllHolds(init, key, v);
        assert init <= items;
      }
    }
  }

  /** A run from the start of `w + rest` covers `w` exactly when `rest` does not carry it on. */
  lemma PrefixSpan(w: string, rest: string, p: char -> bool)
    requires forall k | 0 <= k < |w| :: p(w[k])
    requires |rest| == 0 || !p(rest[0])
    ensures Span(w + rest, 0, p) == |w|
  {
    SpanOver([], w, rest, p);
    assert [] + w + rest == w + rest;
  }

  /** The ring bounds as the template writes them. */
  lemma MatchIndicesOf(p: string, q: string, m: string)
    requires IsIndexText(p) && IsIndexText(q) && (m == "" || m[0] == '|')
    ensures MatchIndices(p + (":" + (q + m))) == Some((p, q, m))
  {
    var t := p + (":" + (q + m));
    PrefixSpan(p, ":" + (q + m), IsIndexChar);
    assert t[|p|] == ':';
    assert t[|p| + 1..] == q + m;
    PrefixSpan(q, m, IsIndexChar);
  }

  /** The superclass and ring bounds as the template writes them. */
  lemma MatchSuperclassOf(s: string, p: string, q: string, m: string)
    requires IsSuperclassCode(s) && IsIndexText(p) && IsIndexText(q) && (m == "" || m[0] == '|')
    ensures MatchSuperclass("-" + (s + ("-" + (p + (":" + (q + m)))))) == Some((s, p, q, m))
  {
    var ix := p + (":" + (q + m));
    var t1 := s + ("-" + ix);
    assert SkipDash("-" + t1) == t1;
    PrefixSpan(s, "-" + ix, IsUpper);
    assert t1[|s|..] == "-" + ix;
    assert SkipDash("-" + ix) == ix;
    MatchIndicesOf(p, q, m);
  }

  /** The rest of the residue pattern after the anomer, as the template writes it. */
  lemma MatchAfterAnomerOf(pairs: seq<(char, string)>, post: string, s: string, p: string, q: string, m: string, a: Option<char>)
    requires post == "-" + (s + ("-" + (p + (":" + (q + m)))))
    requires ConfStems(ConfStemText(pairs) + post) == (pairs, |ConfStemText(pairs)|)
    requires MatchSuperclass(post) == Some((s, p, q, m)) && ModsSpan(m) == |m|
    ensures MatchAfterAnomer(ConfStemText(pairs) + post, a) == Some(ResidueFields(a, pairs, s, p, q, m))
  {
    assert (ConfStemText(pairs) + post)[|ConfStemText(pairs)|..] == post;
    assert m[..|m|] == m;
  }

  lemma ModificationTextStart(items: seq<(Scalar, string)>)
    ensures ModificationText(items) == "" || ModificationText(items)[0] == '|'
  {
  }

  /** The residue pattern reads every group of a written residue body back. */
  lemma MatchResidueBody(d: ResidueDescription)
    requires Writable(d)
    ensures MatchResidue(ResidueBody(d))
         == Some(ResidueFields(Some(d.anomer), d.confStem, d.superclass, ScalarText(d.ringStart),
                               ScalarText(d.ringEnd), ModificationText(d.modifications)))
  {
    var s, p, q := d.superclass, ScalarText(d.ringStart), ScalarText(d.ringEnd);
    var m := ModificationText(d.modifications);
    var post := ResidueSuffix(d);
    assert post[1] == s[0];
    ConfStemsOf(d.confStem, post);
    ScalarTextIndexChars(d.ringStart);
    ScalarTextIndexChars(d.ringEnd);
    ModificationTextStart(d.modifications);
    MatchSuperclassOf(s, p, q, m);
    ModsSpanOf(d.modifications);
    MatchAfterAnomerOf(d.confStem, post, s, p, q, m, Some(d.anomer));
    assert ResidueBody(d)[1..] == ConfStemText(d.confStem) + post;
  }

  /** A written residue line is a residue line, and its index is split off before the `b`. */
  lemma SplitResidueLine(d: ResidueDescription)
    ensures IsResidueLine(ResidueLine(d))
    ensures SplitIndex(ResidueLine(d)) == (NatString(d.index), ":" + ResidueBody(d))
  {
    var ix, rest := NatString(d.index), "b:" + ResidueBody(d);
    PrefixSpan(ix, rest, IsDigit);
    assert (ix + rest)[|ix|..|ix| + 1] == "b";
    assert (ix + rest)[..|ix|] == ix;
    assert (ix + rest)[|ix| + 1..] == ":" + ResidueBody(d);
  }

  /** The search skips the colon and matches the written residue body. */
  lemma SearchResidueBody(d: ResidueDescription)
    requires Writable(d)
    ensures SearchResidue(":" + ResidueBody(d))
         == Some(ResidueFields(Some(d.anomer), d.confStem, d.superclass, ScalarText(d.ringStart),
                               ScalarText(d.ringEnd), ModificationText(d.modifications)))
  {
    var t := ":" + ResidueBody(d);
    assert ConfStemUnit(t) == None;
    assert Span(t, 0, IsUpper) == 0;
    assert MatchResidue(t) == None;
    assert t[1..] == ResidueBody(d);
    MatchResidueBody(d);
  }

  /** The modification table of a written residue is the table of its modifications, without the `aldi` flag. */
  lemma ModificationTableOf(d: ResidueDescription, position: char -> bool)
    requires Writable(d)
    requires forall k | 0 <= k < |d.modifications| :: PositionText(ScalarText(d.modifications[k].0), position)
    ensures WithoutAldi(PutAll(Keyed(FindModifications(ModificationText(d.modifications), position))))
         == (PutAll(d.modifications), false)
  {
    FindModificationsOf(d.modifications, position);
    KeyedTextItems(d.modifications);
    if "aldi" in Get(PutAll(d.modifications), Int(1)) {
      PutAllHolds(d.modifications, Int(1), "aldi");
      assert false;
    }
  }

  /**
   * Writing a residue with the residue template and reading the line back
   * gives the same index, anomer, configurations, stems, superclass, ring
   * bounds and modifications, and a residue that is not reduced.
   */
  lemma DecodeResidueLine(d: ResidueDescription)
    requires Writable(d)
    ensures IsResidueLine(ResidueLine(d))
    ensures DecodeResidue(ResidueLine(d)) == Ok(Expected(d))
  {
    SplitResidueLine(d);
    SearchResidueBody(d);
    forall k | 0 <= k < |d.modifications|
      ensures PositionText(ScalarText(d.modifications[k].0), IsIndexChar)
    {
      ScalarTextIndexChars(d.modifications[k].0);
    }
    ModificationTableOf(d, IsIndexChar);
    NatStringValue(d.index);
    TryIntScalarText(d.ringStart);
    TryIntScalarText(d.ringEnd);
  }

  /**
   * When every modification position is a number, the residue decoder as
   * written reads a written residue line back just as the corrected one
   * does: only a position `x` tells the two apart.
   */
  lemma DecodeResidueLineAsWritten(d: ResidueDescription)
    requires Writable(d)
    requires forall k | 0 <= k < |d.modifications| :: d.modifications[k].0.Int?
    ensures IsResidueLine(ResidueLine(d))
    ensures DecodeResidueAsWritten(ResidueLine(d)) == Ok(Expected(d))
    ensures DecodeResidueAsWritten(ResidueLine(d)) == DecodeResidue(ResidueLine(d))
  {
    DecodeResidueLine(d);
    SplitResidueLine(d);
    SearchResidueBody(d);
    forall k | 0 <= k < |d.modifications|
      ensures PositionText(ScalarText(d.modifications[k].0), IsDigit)
    {
      assert WritableScalar(d.modifications[k].0);
    }
    ModificationTableOf(d, IsDigit);
    NatStringValue(d.index);
    TryIntScalarText(d.ringStart);
    TryIntScalarText(d.ringEnd);
  }

  // ---------------------------------------------------------------------------
  // The residue decoder as written and as corrected

  /** As written, every failure of the residue decoder escapes `except GlycoCTError`. */
  lemma ResidueErrorAsWritten(line: string)
    requires IsResidueLine(line)
    ensures DecodeResidueAsWritten(line).Err? ==> !IsGlycoCTError(DecodeResidueAsWritten(line).error)
    ensures DecodeResidueAsWritten(line).Err? <==> DecodeResidue(line).Err?
  {
  }

  /** Corrected, every failure of the residue decoder is a `GlycoCTError` naming the line. */
  lemma ResidueErrorCorrected(line: string)
    requires IsResidueLine(line)
    ensures DecodeResidue(line).Err? ==> DecodeResidue(line).error == FormatError("Could not interpret residue", line)
    ensures DecodeResidue(line).Err? ==> IsGlycoCTError(DecodeResidue(line).error)
  {
  }

  /** A residue line with nothing after its `b` reaches the failing `groupdict()` call. */
  lemma EmptyResidueEscapes(line: string)
    requires line == "1b"
    ensures IsResidueLine(line)
    ensures DecodeResidueAsWritten(line) == Err(NoResidueMatch(""))
    ensures DecodeResidue(line) == Err(FormatError("Could not interpret residue", line))
  {
    assert Span(line, 0, IsDigit) == 1;
    assert line[..1] == "1" && line[2..] == "";
    assert SplitIndex(line) == ("1", "");
    assert ConfStemUnit("") == None;
    assert MatchResidue("") == None;
  }

  /** The modifications `|x:d` hold one modification at position `x` by the residue pattern's own reading. */
  lemma PositionXFound(t: string)
    requires t == "|x:d"
    ensures FindModifications(t, IsIndexChar) == [("x", "d")]
    ensures FindModifications(t, IsDigit) == []
  {
    assert Span(t, 1, IsIndexChar) == 1;
    assert Span(t, 3, IsModificationValueChar) == 1;
    assert t[1..][..1] == "x" && t[3..][..1] == "d";
    assert MatchModification(t, IsIndexChar) == Some(("x", "d", 4));
    assert FindModifications(t[4..], IsIndexChar) == [];
    var t1, t2, t3 := t[1..], t[2..], t[3..];
    assert t1[1..] == t2 && t2[1..] == t3 && t3[1..] == t[4..];
    assert Span(t, 1, IsDigit) == 0 && Span(t1, 0, IsDigit) == 0;
    assert Span(t2, 0, IsDigit) == 0 && Span(t3, 0, IsDigit) == 0;
    assert FindModifications(t3, IsDigit) == [];
    assert FindModifications(t2, IsDigit) == [];
    assert FindModifications(t1, IsDigit) == [];
  }

  /** The modification at position `x` as the template writes it. */
  lemma PositionXText(items: seq<(Scalar, string)>)
    requires items == [(Text("x"), "d")]
    ensures ModificationText(items) == "|x:d"
  {
    assert ModificationText(items[1..]) == "";
    assert ScalarText(items[0].0) == "x";
  }

  /** Both decoders build their record from the same split and the same match. */
  lemma DecodersOn(line: string, ix: string, rest: string, f: ResidueFields)
    requires IsResidueLine(line) && SplitIndex(line) == (ix, rest) && SearchResidue(rest) == Some(f)
    ensures DecodeResidueAsWritten(line) == Ok(RecordOf(ix, f, IsDigit))
    ensures DecodeResidue(line) == Ok(RecordOf(ix, f, IsIndexChar))
  {
  }

  /** The table each reading builds from the modifications `|x:d`. */
  lemma PositionXTables(ix: string, f: ResidueFields)
    requires (forall k | 0 <= k < |ix| :: IsDigit(ix[k])) && f.modifications == "|x:d"
    ensures RecordOf(ix, f, IsDigit).modifications == Empty()
    ensures RecordOf(ix, f, IsIndexChar).modifications == Put(Empty(), Text("x"), "d")
  {
    PositionXFound("|x:d");
    assert Keyed([]) == [];
    assert Keyed([("x", "d")]) == [(Text("x"), "d")];
    assert PutAll([(Text("x"), "d")]) == Put(Empty(), Text("x"), "d");
  }

  /**
   * A written residue with one modification at the unknown position `x`
   * loses it when read as written, and keeps it when read as corrected.
   */
  lemma PositionXDroppedAsWritten(d: ResidueDescription)
    requires Writable(d) && d.modifications == [(Text("x"), "d")]
    ensures IsResidueLine(ResidueLine(d))
    ensures DecodeResidueAsWritten(ResidueLine(d)).Ok?
    ensures DecodeResidueAsWritten(ResidueLine(d)).value.modifications == Empty()
    ensures DecodeResidue(ResidueLine(d)).Ok?
    ensures DecodeResidue(ResidueLine(d)).value.modifications == Put(Empty(), Text("x"), "d") != Empty()
  {
    SplitResidueLine(d);
    SearchResidueBody(d);
    var f := ResidueFields(Some(d.anomer), d.confStem, d.superclass, ScalarText(d.ringStart),
                           ScalarText(d.ringEnd), ModificationText(d.modifications));
    DecodersOn(ResidueLine(d), NatString(d.index), ":" + ResidueBody(d), f);
    PositionXText(d.modifications);
    PositionXTables(NatString(d.index), f);
    assert Get(Put(Empty<Scalar, string>(), Text("x"), "d"), Text("x")) == ["d"];
  }

  // ---------------------------------------------------------------------------
  // Substituent lines

  /** What `handle_residue_substituent` hands to the Substituent constructor: the document index and the name. */
  datatype SubstituentRecord = SubstituentRecord(index: string, name: string)

  /** `re.split(r"^(\d+)s:", line)`, then the stripped text after the `s:`. */
  function DecodeSubstituent(line: string): (r: SubstituentRecord)
    requires IsSubstituentLine(line)
    ensures 0 < |r.index| && forall k | 0 <= k < |r.index| :: IsDigit(r.index[k])
  {
    var d := Span(line, 0, IsDigit);
    SpanFacts(line, 0, IsDigit);
    SubstituentRecord(line[..d], Strip(line[d + 2..]))
  }

  /** A substituent line as the template `{ix}s:{name}` writes it. */
  function SubstituentLine(index: nat, name: string): string {
    NatString(index) + ("s:" + name)
  }

  /** A written substituent line is a substituent line and reads back as its index and name. */
  lemma DecodeSubstituentLine(index: nat, name: string)
    requires IsWord(name)
    ensures IsSubstituentLine(SubstituentLine(index, name))
    ensures DecodeSubstituent(SubstituentLine(index, name)) == SubstituentRecord(NatString(index), name)
  {
    var ix, rest := NatString(index), "s:" + name;
    PrefixSpan(ix, rest, IsDigit);
    assert (ix + rest)[|ix|..|ix| + 2] == "s:";
    assert (ix + rest)[..|ix|] == ix;
    assert (ix + rest)[|ix| + 2..] == name;
    StripWord(name);
  }
}
