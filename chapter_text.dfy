/** Plain-text extraction from one parsed chapter (`chapter_to_text` in app.py).

    The markup parser is not modelled: a parsed chapter is the sequence of its
    text nodes in document order, each with the tag name of its immediate
    parent element. The extractor walks that sequence once, keeping a text
    accumulator `output` and the text `prev` of the last node whose parent is
    not blocklisted. */
module ChapterText {
  import opened StringParts

  /** One text node as the parser yields it: its parent's tag name and its text. */
  datatype TextNode = TextNode(parentName: string, text: string)

  /** Parent tags whose text nodes are ignored. */
  const Blocklist: seq<string> := ["[document]", "noscript", "header", "html", "meta", "head", "input", "script"]

  /** The paragraph break inserted between two text runs. */
  const Break: string := "\n\n"

  predicate Blocked(n: TextNode) {
    n.parentName in Blocklist
  }

  /** The characters Python's `str.isspace` accepts: tab, line feed, vertical
      tab, form feed, carriage return, the four information separators, space,
      next line, no-break space, and the Unicode space separators and line and
      paragraph separators. */
  predicate IsWhitespaceChar(c: char) {
    ('\t' <= c <= '\r') || ('\U{1C}' <= c <= ' ') || c == '\U{85}' || c == '\U{A0}' || c == '\U{1680}'
    || ('\U{2000}' <= c <= '\U{200A}') || c == '\U{2028}' || c == '\U{2029}' || c == '\U{202F}'
    || c == '\U{205F}' || c == '\U{3000}'
  }

  /** Every character of `s` is whitespace (true of the empty string). */
  predicate AllWhitespace(s: string) {
    s == [] || (IsWhitespaceChar(s[0]) && AllWhitespace(s[1..]))
  }

  /** Python's `str.isspace`: false on the empty string. */
  predicate IsSpace(s: string) {
    |s| > 0 && AllWhitespace(s)
  }

  /** Only the ASCII space counts for the break test. */
  predicate EndsWithSpace(s: string) {
    |s| > 0 && s[|s| - 1] == ' '
  }

  predicate StartsWithSpace(s: string) {
    |s| > 0 && s[0] == ' '
  }

  /** A node whose text is appended: its parent is not blocklisted and its text
      is not whitespace-only (an empty text is kept). */
  predicate Kept(n: TextNode) {
    !Blocked(n) && !IsSpace(n.text)
  }

  /** A break goes before a kept text unless the previous text ends with a
      space or the new one starts with one. */
  predicate NeedsBreak(prev: string, text: string) {
    !(EndsWithSpace(prev) || StartsWithSpace(text))
  }

  function Separator(prev: string, text: string): (sep: string) {
    if NeedsBreak(prev, text) then Break else ""
  }

  /** What a node appends to `output` when `prev` holds `prev`: for a kept
      node its break, if one is needed, and then its text; otherwise nothing. */
  function Contribution(prev: string, n: TextNode): (piece: string) {
    if Kept(n) then Separator(prev, n.text) + n.text else ""
  }

  /** The two variables of the extraction loop. */
  datatype State = State(output: string, prev: string)

  const Start: State := State("", "")

  /** One iteration of the extraction loop: a blocklisted node changes
      nothing; any other node appends its contribution and becomes `prev`. */
  function Step(st: State, n: TextNode): (next: State) {
    if Blocked(n) then st else State(st.output + Contribution(st.prev, n), n.text)
  }

  /** The loop state after visiting every node of `nodes`, starting from `st`. */
  function Run(st: State, nodes: seq<TextNode>): (final: State)
    decreases |nodes|
  {
    if nodes == [] then st else Step(Run(st, nodes[..|nodes| - 1]), nodes[|nodes| - 1])
  }

  /** The text extracted from a chapter. */
  function ChapterOutput(nodes: seq<TextNode>): (output: string) {
    Run(Start, nodes).output
  }

  /** The extraction loop itself. */
  method ChapterToText(nodes: seq<TextNode>) returns (output: string)
    ensures output == ChapterOutput(nodes)
  {
    output := "";
    var prev := "";
    for i := 0 to |nodes|
      invariant Run(Start, nodes[..i]) == State(output, prev)
    {
      var t := nodes[i];
      if t.parentName !in Blocklist {
        if !IsSpace(t.text) {
          if !(EndsWithSpace(prev) || StartsWithSpace(t.text)) {
            output := output + Break;
          }
          output := output + t.text;
        }
        prev := t.text;
      }
      assert nodes[..i + 1][..i] == nodes[..i];
    }
    assert nodes[..|nodes|] == nodes;
  }

  // ----- An index-based reference description of the output -----

  /** The text of the last node before index `j` whose parent is not
      blocklisted, or "" when there is none. */
  function PrevBefore(nodes: seq<TextNode>, j: nat): (prev: string)
    requires j <= |nodes|
  {
    if j == 0 then ""
    else if !Blocked(nodes[j - 1]) then nodes[j - 1].text
    else PrevBefore(nodes, j - 1)
  }

  /** What each node contributes, judged from its own text and the last
      non-blocklisted text before it. */
  function Pieces(nodes: seq<TextNode>): (ps: seq<string>) {
    seq(|nodes|, j requires 0 <= j < |nodes| => Contribution(PrevBefore(nodes, j), nodes[j]))
  }

  /** Whether a break is written just before node `j`. */
  predicate BreakBefore(nodes: seq<TextNode>, j: nat)
    requires j < |nodes|
  {
    Kept(nodes[j]) && NeedsBreak(PrevBefore(nodes, j), nodes[j].text)
  }

  /** Where node `j`'s text starts in the output. */
  function TextOffset(nodes: seq<TextNode>, j: nat): (offset: nat)
    requires j < |nodes|
  {
    |Flatten(Pieces(nodes)[..j])| + |Separator(PrevBefore(nodes, j), nodes[j].text)|
  }

  /** Total length of the kept texts among nodes `0 .. k-1`. */
  function KeptLength(nodes: seq<TextNode>, k: nat): (total: nat)
    requires k <= |nodes|
  {
    if k == 0 then 0 else KeptLength(nodes, k - 1) + (if Kept(nodes[k - 1]) then |nodes[k - 1].text| else 0)
  }

  /** Number of breaks written before nodes `0 .. k-1`. */
  function BreakCount(nodes: seq<TextNode>, k: nat): (count: nat)
    requires k <= |nodes|
  {
    if k == 0 then 0 else BreakCount(nodes, k - 1) + (if BreakBefore(nodes, k - 1) then 1 else 0)
  }

  // ----- Lemmas -----

  /** After any prefix of the nodes, `output` is the flattening of the
      prefix's pieces and `prev` is the last non-blocklisted text. */
  lemma {:induction false} RunPrefix(nodes: seq<TextNode>, k: nat)
    requires k <= |nodes|
    ensures Run(Start, nodes[..k]) == State(Flatten(Pieces(nodes)[..k]), PrevBefore(nodes, k))
  {
    if k > 0 {
      RunPrefix(nodes, k - 1);
      assert nodes[..k][..k - 1] == nodes[..k - 1];
      assert nodes[..k][k - 1] == nodes[k - 1];
      var ps := Pieces(nodes);
      assert ps[..k][..k - 1] == ps[..k - 1];
      assert ps[..k][k - 1] == Contribution(PrevBefore(nodes, k - 1), nodes[k - 1]);
    }
  }

  /** After any prefix of the nodes, `prev` is the text of the last
      non-blocklisted node of that prefix, or "" when there is none. */
  lemma {:induction false} RunPrev(nodes: seq<TextNode>, k: nat)
    requires k <= |nodes|
    ensures Run(Start, nodes[..k]).prev == PrevBefore(nodes, k)
  {
    if k > 0 {
      RunPrev(nodes, k - 1);
      assert nodes[..k][..k - 1] == nodes[..k - 1];
      assert nodes[..k][k - 1] == nodes[k - 1];
    }
  }

  /** The output is exactly the in-order concatenation of the pieces: each kept
      node's text verbatim, preceded by a break exactly when it needs one, and
      nothing else. */
  lemma OutputIsPieces(nodes: seq<TextNode>)
    ensures ChapterOutput(nodes) == Flatten(Pieces(nodes))
  {
    RunPrefix(nodes, |nodes|);
    assert nodes[..|nodes|] == nodes;
    assert Pieces(nodes)[..|nodes|] == Pieces(nodes);
  }

  /** Running over a concatenation is running over each part in turn. */
  lemma {:induction false} RunAppend(st: State, a: seq<TextNode>, b: seq<TextNode>)
    ensures Run(st, a + b) == Run(Run(st, a), b)
    decreases |b|
  {
    if b == [] {
      assert a + b == a;
    } else {
      var b' := b[..|b| - 1];
      RunAppend(st, a, b');
      assert (a + b)[..|a + b| - 1] == a + b';
      assert (a + b)[|a + b| - 1] == b[|b| - 1];
    }
  }

  lemma RunSingle(st: State, n: TextNode)
    ensures Run(st, [n]) == Step(st, n)
  {
    assert [n][..0] == [];
  }

  /** A blocklisted node, wherever it stands, adds nothing and leaves `prev`
      alone: removing it changes neither variable. */
  lemma BlockedNodeInert(st: State, a: seq<TextNode>, n: TextNode, c: seq<TextNode>)
    requires Blocked(n)
    ensures Run(st, a + [n] + c) == Run(st, a + c)
  {
    RunAppend(st, a + [n], c);
    RunAppend(st, a, [n]);
    RunSingle(Run(st, a), n);
    RunAppend(st, a, c);
  }

  /** A non-blocklisted whitespace-only node adds nothing to the output but
      becomes the new `prev`. */
  lemma WhitespaceNodeMovesPrev(st: State, a: seq<TextNode>, w: TextNode, c: seq<TextNode>)
    requires !Blocked(w) && IsSpace(w.text)
    ensures Run(st, a + [w]) == State(Run(st, a).output, w.text)
    ensures Run(st, a + [w] + c) == Run(State(Run(st, a).output, w.text), c)
  {
    RunAppend(st, a, [w]);
    RunSingle(Run(st, a), w);
    RunAppend(st, a + [w], c);
  }

  /** Hence a whitespace-only node that ends with a space suppresses the break
      before the kept node that follows it. */
  lemma TrailingSpaceSuppressesBreak(a: seq<TextNode>, w: TextNode, t: TextNode)
    requires !Blocked(w) && IsSpace(w.text) && EndsWithSpace(w.text) && Kept(t)
    ensures ChapterOutput(a + [w, t]) == ChapterOutput(a) + t.text
  {
    WhitespaceNodeMovesPrev(Start, a, w, [t]);
    assert a + [w, t] == a + [w] + [t];
    RunSingle(State(ChapterOutput(a), w.text), t);
  }

  /** Appending a kept node appends its text, preceded by a break exactly when
      the last non-blocklisted text does not end with a space and the node's
      text does not start with one; no other separator is ever written. */
  lemma BreakRule(a: seq<TextNode>, t: TextNode)
    requires Kept(t)
    ensures ChapterOutput(a + [t]) == ChapterOutput(a) + Separator(PrevBefore(a, |a|), t.text) + t.text
  {
    var st := Run(Start, a);
    assert st.prev == PrevBefore(a, |a|) by {
      RunPrev(a, |a|);
      assert a[..|a|] == a;
    }
    assert Run(Start, a + [t]) == Step(st, t) by {
      RunAppend(Start, a, [t]);
      RunSingle(st, t);
    }
    AppendAssoc(st.output, Separator(st.prev, t.text), t.text);
  }

  lemma KeptPiece(nodes: seq<TextNode>, j: nat)
    requires j < |nodes| && Kept(nodes[j])
    ensures Pieces(nodes)[j] == Separator(PrevBefore(nodes, j), nodes[j].text) + nodes[j].text
  {
  }

  /** A kept node's text appears verbatim in the output at its offset, right
      after its break if it has one. */
  lemma KeptTextVerbatim(nodes: seq<TextNode>, j: nat)
    requires j < |nodes| && Kept(nodes[j])
    ensures TextOffset(nodes, j) + |nodes[j].text| <= |ChapterOutput(nodes)|
    ensures ChapterOutput(nodes)[TextOffset(nodes, j) .. TextOffset(nodes, j) + |nodes[j].text|] == nodes[j].text
  {
    var ps := Pieces(nodes);
    OutputIsPieces(nodes);
    FlattenPart(ps, j);
    var sep := Separator(PrevBefore(nodes, j), nodes[j].text);
    AppendAssoc(Flatten(ps[..j]), sep, nodes[j].text);
    InfixAt(ChapterOutput(nodes), Flatten(ps[..j]) + sep, nodes[j].text);
  }

  /** A kept node's text ends where the pieces up to and including it end. */
  lemma KeptTextEnd(nodes: seq<TextNode>, j: nat)
    requires j < |nodes| && Kept(nodes[j])
    ensures TextOffset(nodes, j) + |nodes[j].text| == |Flatten(Pieces(nodes)[..j + 1])|
  {
    FlattenNext(Pieces(nodes), j);
    KeptPiece(nodes, j);
  }

  /** Kept texts appear in the output in node order, without overlapping. */
  lemma KeptTextsInOrder(nodes: seq<TextNode>, j: nat, k: nat)
    requires j < k < |nodes| && Kept(nodes[j])
    ensures TextOffset(nodes, j) + |nodes[j].text| <= TextOffset(nodes, k)
  {
    KeptTextEnd(nodes, j);
    FlattenGrows(Pieces(nodes), j + 1, k);
  }

  /** The pieces' lengths: the kept texts plus two characters per break. */
  lemma {:induction false} PiecesLength(nodes: seq<TextNode>, k: nat)
    requires k <= |nodes|
    ensures TotalLength(Pieces(nodes)[..k]) == KeptLength(nodes, k) + |Break| * BreakCount(nodes, k)
  {
    if k > 0 {
      PiecesLength(nodes, k - 1);
      var ps := Pieces(nodes);
      assert ps[..k][..k - 1] == ps[..k - 1];
    }
  }

  /** Length of the output: the kept texts plus two characters per break. */
  lemma OutputLength(nodes: seq<TextNode>)
    ensures |ChapterOutput(nodes)| == KeptLength(nodes, |nodes|) + 2 * BreakCount(nodes, |nodes|)
  {
    OutputIsPieces(nodes);
    FlattenLength(Pieces(nodes));
    PiecesLength(nodes, |nodes|);
    assert Pieces(nodes)[..|nodes|] == Pieces(nodes);
  }

  lemma ContributionEmpty(prev: string, n: TextNode)
    ensures Contribution(prev, n) == "" <==> (Kept(n) ==> n.text == "" && !NeedsBreak(prev, n.text))
  {
  }

  /** The output is empty exactly when every kept node has empty text and
      gets no break. */
  lemma OutputEmptyIff(nodes: seq<TextNode>)
    ensures ChapterOutput(nodes) == ""
        <==> forall j :: 0 <= j < |nodes| && Kept(nodes[j]) ==> nodes[j].text == "" && !BreakBefore(nodes, j)
  {
    var ps := Pieces(nodes);
    OutputIsPieces(nodes);
    FlattenEmpty(ps);
    forall j | 0 <= j < |nodes|
      ensures ps[j] == "" <==> (Kept(nodes[j]) ==> nodes[j].text == "" && !BreakBefore(nodes, j))
    {
      ContributionEmpty(PrevBefore(nodes, j), nodes[j]);
    }
  }

  /** In particular a chapter with no kept node yields the empty string. */
  lemma NothingKeptEmpty(nodes: seq<TextNode>)
    requires forall i :: 0 <= i < |nodes| ==> !Kept(nodes[i])
    ensures ChapterOutput(nodes) == ""
  {
    OutputEmptyIff(nodes);
  }

  lemma {:induction false} PrevBeforeAllBlocked(nodes: seq<TextNode>, j: nat)
    requires j <= |nodes|
    requires forall i :: 0 <= i < j ==> Blocked(nodes[i])
    ensures PrevBefore(nodes, j) == ""
  {
    if j > 0 {
      PrevBeforeAllBlocked(nodes, j - 1);
    }
  }

  /** Since `prev` starts empty, a first kept node that only blocklisted nodes
      precede gets a leading break unless its text starts with a space. */
  lemma FirstKeptNode(nodes: seq<TextNode>, j: nat)
    requires j < |nodes| && Kept(nodes[j])
    requires forall i :: 0 <= i < j ==> Blocked(nodes[i])
    ensures StartsWithSpace(nodes[j].text) ==> nodes[j].text <= ChapterOutput(nodes)
    ensures !StartsWithSpace(nodes[j].text) ==> Break + nodes[j].text <= ChapterOutput(nodes)
  {
    var ps := Pieces(nodes);
    PrevBeforeAllBlocked(nodes, j);
    FlattenEmpty(ps[..j]);
    OutputIsPieces(nodes);
    FlattenPart(ps, j);
  }

  /** Two kept texts, a blocklisted node, a third kept text, none of them
      touching a space: each kept text gets a break before it, the blocklisted
      one vanishes. */
  lemma ThreeRunsWithBlockedNode(h: TextNode, p: TextNode, s: TextNode, w: TextNode)
    requires Kept(h) && Kept(p) && Kept(w) && Blocked(s)
    requires NeedsBreak("", h.text) && NeedsBreak(h.text, p.text) && NeedsBreak(p.text, w.text)
    ensures ChapterOutput([h, p, s, w]) == Break + h.text + Break + p.text + Break + w.text
  {
    var o1 := ChapterOutput([h]);
    assert o1 == Break + h.text by {
      BreakRule([], h);
      assert [] + [h] == [h];
    }
    var o2 := ChapterOutput([h, p]);
    assert o2 == o1 + Break + p.text by {
      BreakRule([h], p);
      assert [h] + [p] == [h, p];
      assert PrevBefore([h], 1) == h.text;
    }
    var o3 := ChapterOutput([h, p, w]);
    assert o3 == o2 + Break + w.text by {
      BreakRule([h, p], w);
      assert [h, p] + [w] == [h, p, w];
      assert PrevBefore([h, p], 2) == p.text;
    }
    assert ChapterOutput([h, p, s, w]) == o3 by {
      BlockedNodeInert(Start, [h, p], s, [w]);
      assert [h, p] + [s] + [w] == [h, p, s, w];
      assert [h, p] + [w] == [h, p, w];
    }
  }

  lemma ScenarioNodes()
    ensures Kept(TextNode("h1", "Intro")) && Kept(TextNode("p", "Hello")) && Kept(TextNode("p", "World"))
    ensures Blocked(TextNode("script", "ignored"))
  {
    assert !IsWhitespaceChar('I') && !IsWhitespaceChar('H') && !IsWhitespaceChar('W');
    assert "script" == Blocklist[7];
  }

  /** A heading, a paragraph, a script and a paragraph: the heading is kept
      (only the blocklist filters), the script is dropped, and the first text
      gets a leading break. */
  lemma HeadingScenario()
    ensures ChapterOutput([TextNode("h1", "Intro"), TextNode("p", "Hello"),
                           TextNode("script", "ignored"), TextNode("p", "World")])
            == "\n\nIntro\n\nHello\n\nWorld"
  {
    ScenarioNodes();
    ThreeRunsWithBlockedNode(TextNode("h1", "Intro"), TextNode("p", "Hello"),
                             TextNode("script", "ignored"), TextNode("p", "World"));
  }
}
