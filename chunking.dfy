/** `chunk_docs` and `node_lens`: structural Markdown nodes, with every node
    longer than `max_len` replaced in place by the fallback splitter's output. */
module Chunking {

  /** A llama_index text node: its identifier and its content. */
  datatype Node = Node(id: string, content: string)

  /** The settings the fallback `SentenceSplitter` is built with. */
  datatype SplitterConfig = SplitterConfig(chunkSize: int, chunkOverlap: nat)

  /** Default `max_len` of `chunk_docs`. */
  const DefaultMaxLen: int := 256

  /** `chunk_overlap` of the fallback splitter. */
  const FallbackOverlap: nat := 20

  /** What the loop appends for one structural node: the fallback's output
      when the content is longer than `maxLen` characters, else the node. */
  function Piece(n: Node, maxLen: int, fallback: (SplitterConfig, Node) -> seq<Node>): seq<Node>
  {
    if |n.content| > maxLen then fallback(SplitterConfig(maxLen, FallbackOverlap), n) else [n]
  }

  /** The in-order concatenation of the pieces of `nodes`. */
  function ReplaceOrKeep(nodes: seq<Node>, maxLen: int, fallback: (SplitterConfig, Node) -> seq<Node>): seq<Node>
  {
    if nodes == [] then [] else Piece(nodes[0], maxLen, fallback) + ReplaceOrKeep(nodes[1..], maxLen, fallback)
  }

  /** Replacing or keeping distributes over concatenation. */
  lemma {:induction false} ReplaceOrKeepAppend(a: seq<Node>, b: seq<Node>, maxLen: int,
                                               fallback: (SplitterConfig, Node) -> seq<Node>)
    ensures ReplaceOrKeep(a + b, maxLen, fallback) ==
            ReplaceOrKeep(a, maxLen, fallback) + ReplaceOrKeep(b, maxLen, fallback)
  {
    if a != [] {
      assert (a + b)[1..] == a[1..] + b;
      ReplaceOrKeepAppend(a[1..], b, maxLen, fallback);
    } else {
      assert a + b == b;
    }
  }

  /** `chunk_docs(documents, max_len)`: the Markdown parser's nodes, each one
      longer than `maxLen` replaced where it stood by what the fallback
      splitter makes of it, every other node kept. */
  method ChunkDocs<D>(documents: seq<D>, maxLen: int, mdParse: seq<D> -> seq<Node>,
                      fallback: (SplitterConfig, Node) -> seq<Node>) returns (chunks: seq<Node>)
    ensures chunks == ReplaceOrKeep(mdParse(documents), maxLen, fallback)
  {
    var config := SplitterConfig(maxLen, FallbackOverlap);
    var nodes := mdParse(documents);
    chunks := [];
    for i := 0 to |nodes|
      invariant chunks == ReplaceOrKeep(nodes[..i], maxLen, fallback)
    {
      var n := nodes[i];
      if |n.content| > maxLen {
        chunks := chunks + fallback(config, n);
      } else {
        chunks := chunks + [n];
      }
      assert nodes[..i + 1] == nodes[..i] + [n];
      ReplaceOrKeepAppend(nodes[..i], [n], maxLen, fallback);
    }
    assert nodes[..|nodes|] == nodes;
  }

  /** Each node's piece sits between the output of the nodes before it and
      that of the nodes after it: replacement happens in place, in order. */
  lemma ReplaceOrKeepAt(nodes: seq<Node>, i: nat, maxLen: int, fallback: (SplitterConfig, Node) -> seq<Node>)
    requires i < |nodes|
    ensures ReplaceOrKeep(nodes, maxLen, fallback) ==
      ReplaceOrKeep(nodes[..i], maxLen, fallback) + Piece(nodes[i], maxLen, fallback) +
      ReplaceOrKeep(nodes[i + 1..], maxLen, fallback)
  {
    assert nodes == nodes[..i] + [nodes[i]] + nodes[i + 1..];
    ReplaceOrKeepAppend(nodes[..i] + [nodes[i]], nodes[i + 1..], maxLen, fallback);
    ReplaceOrKeepAppend(nodes[..i], [nodes[i]], maxLen, fallback);
  }

  /** When no node is longer than `maxLen`, the nodes come back unchanged. */
  lemma {:induction false} ReplaceOrKeepIdentity(nodes: seq<Node>, maxLen: int,
                                                 fallback: (SplitterConfig, Node) -> seq<Node>)
    requires forall i :: 0 <= i < |nodes| ==> |nodes[i].content| <= maxLen
    ensures ReplaceOrKeep(nodes, maxLen, fallback) == nodes
  {
    if nodes != [] {
      ReplaceOrKeepIdentity(nodes[1..], maxLen, fallback);
    }
  }

  /** The fallback is consulted only on nodes longer than `maxLen`: two
      fallbacks that agree on those give the same chunks. */
  lemma {:induction false} FallbackOnlyForLongNodes(nodes: seq<Node>, maxLen: int,
                                                    f: (SplitterConfig, Node) -> seq<Node>,
                                                    g: (SplitterConfig, Node) -> seq<Node>)
    requires forall i :: 0 <= i < |nodes| && |nodes[i].content| > maxLen ==>
      f(SplitterConfig(maxLen, FallbackOverlap), nodes[i]) == g(SplitterConfig(maxLen, FallbackOverlap), nodes[i])
    ensures ReplaceOrKeep(nodes, maxLen, f) == ReplaceOrKeep(nodes, maxLen, g)
  {
    if nodes != [] {
      FallbackOnlyForLongNodes(nodes[1..], maxLen, f, g);
    }
  }

  /** Every chunk is either a structural node of at most `maxLen` characters,
      kept as it was, or part of the fallback's output for a longer one. */
  lemma {:induction false} ChunkOrigin(nodes: seq<Node>, maxLen: int,
                                       fallback: (SplitterConfig, Node) -> seq<Node>, c: Node)
    requires c in ReplaceOrKeep(nodes, maxLen, fallback)
    ensures (c in nodes && |c.content| <= maxLen) ||
      exists i :: 0 <= i < |nodes| && |nodes[i].content| > maxLen &&
        c in fallback(SplitterConfig(maxLen, FallbackOverlap), nodes[i])
  {
    var rest := ReplaceOrKeep(nodes[1..], maxLen, fallback);
    if c in Piece(nodes[0], maxLen, fallback) {
      if |nodes[0].content| > maxLen {
        assert c in fallback(SplitterConfig(maxLen, FallbackOverlap), nodes[0]);
      }
    } else {
      assert c in rest;
      ChunkOrigin(nodes[1..], maxLen, fallback, c);
      if c !in nodes[1..] || |c.content| > maxLen {
        var i :| 0 <= i < |nodes[1..]| && |nodes[1..][i].content| > maxLen &&
          c in fallback(SplitterConfig(maxLen, FallbackOverlap), nodes[1..][i]);
        assert nodes[i + 1] == nodes[1..][i];
      }
    }
  }

  /** `node_lens(nodes)`: the content length of each node, in order. */
  function NodeLens(nodes: seq<Node>): (lens: seq<nat>)
    ensures |lens| == |nodes|
    ensures forall i :: 0 <= i < |nodes| ==> lens[i] == |nodes[i].content|
  {
    seq(|nodes|, i requires 0 <= i < |nodes| => |nodes[i].content|)
  }

  /** A chunk length above `maxLen` can only come from the fallback splitter,
      whose own output is not bounded in characters. */
  lemma LongChunksComeFromFallback(nodes: seq<Node>, maxLen: int,
                                   fallback: (SplitterConfig, Node) -> seq<Node>, k: nat)
    requires k < |ReplaceOrKeep(nodes, maxLen, fallback)|
    requires NodeLens(ReplaceOrKeep(nodes, maxLen, fallback))[k] > maxLen
    ensures exists i :: 0 <= i < |nodes| && |nodes[i].content| > maxLen &&
                        ReplaceOrKeep(nodes, maxLen, fallback)[k] in fallback(SplitterConfig(maxLen, FallbackOverlap), nodes[i])
  {
    ChunkOrigin(nodes, maxLen, fallback, ReplaceOrKeep(nodes, maxLen, fallback)[k]);
  }
}
