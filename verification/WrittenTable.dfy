/** String tables as they are written, and what is read of them: the text of each item, as it was meant. */
module WrittenTable {
  import opened Wrappers
  import opened Utf8
  import opened Execution
  import opened Xml
  import opened Gathering
  import opened Spelling
  import SharedStrings

  const SI := Name(Spreadsheet, "si")
  const T := Name(Spreadsheet, "t")

  /** The tree of a table: items `si` with text in `t`, among any other elements. */
  function TableTree(blocks: seq<Block>): seq<Node> {
    BlockNodes(blocks, T, SI)
  }

  predicate Reads(nodes: seq<Node>, legible: bool, texts: seq<Text>) {
    && Apart(nodes, SI, false) && Count(nodes, SI) == |texts|
    && (SharedStrings.TableDecodes(nodes) <==> legible)
    && SharedStrings.HeardItems(nodes) == texts
  }

  predicate NodeReads(node: Node, legible: bool, texts: seq<Text>) {
    && NodeApart(node, SI, false) && NodeCount(node, SI) == |texts|
    && (SharedStrings.NodeTableDecodes(node) <==> legible)
    && SharedStrings.NodeHeardItems(node) == texts
  }

  lemma ReadsCons(
    node: Node, rest: seq<Node>, legible: bool, texts: seq<Text>, more: bool, moreTexts: seq<Text>)
    requires NodeReads(node, legible, texts) && Reads(rest, more, moreTexts)
    ensures Reads([node] + rest, legible && more, texts + moreTexts)
  {
    hide ValidFrom, NodeApart, NodeCount, SharedStrings.NodeTableDecodes,
         SharedStrings.NodeHeardItems;
    ConsNode(node, rest);
  }

  lemma {:induction false} BlocksRead(blocks: seq<Block>, depth: nat)
    requires BlocksPlaced(blocks, T, SI, depth)
    ensures Reads(TableTree(blocks), BlocksLegible(blocks), BlocksTexts(blocks, false))
    decreases blocks
  {
    hide ValidFrom, BlockPlaced, BlockNode, BlockLegible, BlockTexts, NodeReads;
    if blocks != [] {
      BlockReads(blocks[0], depth);
      BlocksRead(blocks[1..], depth);
      hide Reads;
      ReadsCons(BlockNode(blocks[0], T, SI), TableTree(blocks[1..]), BlockLegible(blocks[0]),
                BlockTexts(blocks[0], false), BlocksLegible(blocks[1..]),
                BlocksTexts(blocks[1..], false));
    }
  }

  lemma {:induction false} BlockReads(block: Block, depth: nat)
    requires BlockPlaced(block, T, SI, depth)
    ensures NodeReads(BlockNode(block, T, SI), BlockLegible(block), BlockTexts(block, false))
    decreases block
  {
    hide ValidFrom, HeadFault;
    match block {
      case Entry(head, content) =>
        assert "t" != "si" by {
          assert |"t"| != |"si"|;
        }
        InlinesRead(content, Rule(T, false), T, SI, depth + 1);
        NoneInside(InlineNodes(content, T), SI);
      case Other(name, head, blocks) =>
        BlocksRead(blocks, depth + 1);
      case Blank(part) =>
      case Bare(name, head) =>
      case Declaration(valid) =>
    }
  }

  lemma TableIsReadable(blocks: seq<Block>)
    requires BlocksPlaced(blocks, T, SI, 0) && |Flatten(TableTree(blocks))| < 1_000_000
    ensures Readable(TableTree(blocks))
  {
    hide BlocksPlaced, Flatten, Acceptable;
    BlocksAreAcceptable(blocks, T, SI, 0);
  }

  /** Round trip: whatever stands around its items, a table is taken exactly when everything in its text
      elements is legible and there are not too many items; and it then yields the texts of the items as
      they were written. */
  lemma TableIsRead(blocks: seq<Block>)
    requires BlocksPlaced(blocks, T, SI, 0) && |Flatten(TableTree(blocks))| < 1_000_000
    ensures var events, texts := Flatten(TableTree(blocks)), BlocksTexts(blocks, false);
            && (RejectsNothing(SharedStrings.SharedStringsPlan(events))
                <==> BlocksLegible(blocks) && |texts| <= 65_536)
            && (RejectsNothing(SharedStrings.SharedStringsPlan(events)) ==>
                  SharedStrings.TableOf(events) == texts)
  {
    hide ValidFrom, Flatten, RejectsNothing, BlocksTexts, BlocksLegible, BlocksPlaced, TableTree,
         SharedStrings.SharedStringsPlan, SharedStrings.TableOf, SharedStrings.HeardItems,
         SharedStrings.TableDecodes, Apart, Count;
    TableIsReadable(blocks);
    BlocksRead(blocks, 0);
    SharedStrings.TakesTreeIff(TableTree(blocks));
  }
}
