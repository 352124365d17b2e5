/** Documents as they are written, and what is read of them: the text of each paragraph, as it was meant. */
module WrittenDocument {
  import opened Wrappers
  import opened Utf8
  import opened Execution
  import opened Chunking
  import opened Units
  import opened Xml
  import opened Gathering
  import opened Recovery
  import opened Spelling
  import Docx

  const P := Name(Wordprocessing, "p")
  const T := Name(Wordprocessing, "t")

  /** The tree of a document: paragraphs `w:p` with text in `w:t`, among any other elements. */
  function DocumentOf(blocks: seq<Block>): seq<Node> {
    BlockNodes(blocks, T, P)
  }

  predicate Reads(nodes: seq<Node>, legible: bool, texts: seq<Text>) {
    && Apart(nodes, P, false) && Count(nodes, P) == |texts|
    && (Docx.DocumentDecodes(nodes, false) <==> legible)
    && Docx.HeardParagraphs(nodes, false) == texts
  }

  predicate NodeReads(node: Node, legible: bool, texts: seq<Text>) {
    && NodeApart(node, P, false) && NodeCount(node, P) == |texts|
    && (Docx.NodeDocumentDecodes(node, false) <==> legible)
    && Docx.NodeHeardParagraphs(node, false) == texts
  }

  lemma ReadsCons(
    node: Node, rest: seq<Node>, legible: bool, texts: seq<Text>, more: bool, moreTexts: seq<Text>)
    requires NodeReads(node, legible, texts) && Reads(rest, more, moreTexts)
    ensures Reads([node] + rest, legible && more, texts + moreTexts)
  {
    hide ValidFrom, NodeApart, NodeCount, Docx.NodeDocumentDecodes, Docx.NodeHeardParagraphs;
    NodeFlagNeverRises(node, T);
    ConsNode(node, rest);
  }

  lemma {:induction false} BlocksRead(blocks: seq<Block>, depth: nat)
    requires BlocksPlaced(blocks, T, P, depth)
    ensures Reads(DocumentOf(blocks), BlocksLegible(blocks), BlocksTexts(blocks, true))
    decreases blocks
  {
    hide ValidFrom, BlockPlaced, BlockNode, BlockLegible, BlockTexts, NodeReads;
    if blocks != [] {
      BlockReads(blocks[0], depth);
      BlocksRead(blocks[1..], depth);
      hide Reads;
      ReadsCons(BlockNode(blocks[0], T, P), DocumentOf(blocks[1..]), BlockLegible(blocks[0]),
                BlockTexts(blocks[0], true), BlocksLegible(blocks[1..]),
                BlocksTexts(blocks[1..], true));
    }
  }

  lemma {:induction false} BlockReads(block: Block, depth: nat)
    requires BlockPlaced(block, T, P, depth)
    ensures NodeReads(BlockNode(block, T, P), BlockLegible(block), BlockTexts(block, true))
    decreases block
  {
    hide ValidFrom, HeadFault;
    match block {
      case Entry(head, content) =>
        InlinesRead(content, Rule(T, true), T, P, depth + 1);
        NoneInside(InlineNodes(content, T), P);
      case Other(name, head, blocks) =>
        BlocksRead(blocks, depth + 1);
      case Blank(part) =>
      case Bare(name, head) =>
      case Declaration(valid) =>
    }
  }

  /** The paragraphs that have any text, under their numbers. */
  function ParagraphMarks(texts: seq<Text>, number: nat): (marks: seq<Marked>)
    ensures AllText(marks)
  {
    if texts == [] then []
    else
      (if texts[0] == [] then [] else [Marked(DocxParagraph(number, 0), texts[0])])
      + ParagraphMarks(texts[1..], number + 1)
  }

  lemma {:induction false} MarksOfUnits(texts: seq<Text>, number: nat)
    ensures MarkedUnits(Docx.UnitsOf(texts, number)) == ParagraphMarks(texts, number + 1)
    decreases |texts|
  {
    hide ValidFrom;
    var units := Docx.UnitsOf(texts, number);
    if texts != [] {
      MarksOfUnits(texts[1..], number + 1);
      assert units[1..] == Docx.UnitsOf(texts[1..], number + 1);
      assert units[0] == Unit(0, texts[0], Docx.ParagraphLabel(number + 1));
    }
  }

  /** Round trip: whatever stands around its paragraphs, a document is taken exactly when everything in its
      text elements is legible and there are not too many paragraphs; and it then yields the fragments of
      the texts of the paragraphs as they were written. */
  lemma DocumentIsRead(blocks: seq<Block>, limits: Limits)
    requires limits.Valid() && BlocksPlaced(blocks, T, P, 0)
    requires |Flatten(DocumentOf(blocks))| < 1_000_000
    ensures var plan := Docx.DocxPlan(Flatten(DocumentOf(blocks)), limits);
            var texts := BlocksTexts(blocks, true);
            && (RejectsNothing(plan) <==> BlocksLegible(blocks) && |texts| <= 100_000)
            && (RejectsNothing(plan) ==>
                  PiecesOf(plan) == Fragments(ParagraphMarks(texts, 1), limits))
  {
    hide ValidFrom, Pieces, Flatten, StreamPlan, PiecesOf, RejectsNothing, AllPieces, Fragments,
         MarkedUnits, BlocksTexts, BlocksLegible, BlocksPlaced, DocumentOf, Docx.UnitsOf, ParagraphMarks,
         Docx.HeardParagraphs, Docx.DocumentDecodes, Apart, Count;
    var tree, texts := DocumentOf(blocks), BlocksTexts(blocks, true);
    DocumentIsReadable(blocks);
    BlocksRead(blocks, 0);
    Docx.TakesTreeIff(tree, limits);
    Docx.TotalOfUnits(texts, 0);
    PiecesAreFragments(Docx.UnitsOf(texts, 0), limits);
    MarksOfUnits(texts, 0);
  }

  lemma DocumentIsReadable(blocks: seq<Block>)
    requires BlocksPlaced(blocks, T, P, 0) && |Flatten(DocumentOf(blocks))| < 1_000_000
    ensures Readable(DocumentOf(blocks))
  {
    hide BlocksPlaced, Flatten, Acceptable;
    BlocksAreAcceptable(blocks, T, P, 0);
  }
}
