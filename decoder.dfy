/** Decoding (`decodeData`): a cursor walks down the tree one bit at a time;
    reaching a literal leaf emits its byte and puts the cursor back at the
    root, reaching the end-of-file leaf stops without emitting anything. */
module Decoder {
  import opened HuffmanTypes

  /** The decoder from cursor `cur`, with `bits` unread and `out` emitted so far.
      Running out of bits before the end-of-file leaf is a truncated stream; a
      cursor on a literal leaf (a root that is a literal leaf) has no child to
      descend to. */
  function DecodeFrom(root: Tree, cur: Tree, bits: seq<Bit>, out: seq<byte>): Result<seq<byte>>
    decreases |bits|
  {
    if cur.Leaf? && cur.sym == EOF then Success(out)
    else if cur.Leaf? then Failure(NoChild)
    else if bits == [] then Failure(Truncated)
    else
      var next := if bits[0] == 1 then cur.one else cur.zero;
      if next.Leaf? && next.sym.Lit? then DecodeFrom(root, root, bits[1..], out + [next.sym.b])
      else DecodeFrom(root, next, bits[1..], out)
  }

  /** The bytes decoded from `bits` with the cursor starting at the root. */
  function Decode(root: Tree, bits: seq<Bit>): Result<seq<byte>> {
    DecodeFrom(root, root, bits, [])
  }

  /** Following a non-empty path to a literal leaf emits that byte and resets
      the cursor to the root, whatever bits come after. */
  lemma {:induction false} DecodeLiteral(root: Tree, cur: Tree, p: seq<Bit>, rest: seq<Bit>, out: seq<byte>, b: byte)
    requires p != [] && Reaches(cur, p, Lit(b))
    ensures DecodeFrom(root, cur, p + rest, out) == DecodeFrom(root, root, rest, out + [b])
    decreases |p|
  {
    var next := if p[0] == 1 then cur.one else cur.zero;
    assert (p + rest)[0] == p[0] && (p + rest)[1..] == p[1..] + rest;
    if p[1..] != [] {
      DecodeLiteral(root, next, p[1..], rest, out, b);
    }
  }

  /** Following a path to the end-of-file leaf stops decoding with the output
      emitted so far; the bits after it are never read. */
  lemma {:induction false} DecodeEof(root: Tree, cur: Tree, p: seq<Bit>, rest: seq<Bit>, out: seq<byte>)
    requires Reaches(cur, p, EOF)
    ensures DecodeFrom(root, cur, p + rest, out) == Success(out)
    decreases |p|
  {
    if p != [] {
      var next := if p[0] == 1 then cur.one else cur.zero;
      assert (p + rest)[0] == p[0] && (p + rest)[1..] == p[1..] + rest;
      DecodeEof(root, next, p[1..], rest, out);
    }
  }

  /** A tree that is only the end-of-file leaf decodes any stream to nothing,
      reading no bit. */
  lemma DecodeSingleLeaf(w: nat, bits: seq<Bit>)
    ensures Decode(Leaf(EOF, w), bits) == Success([])
  {
  }

  /** Decoding with an internal root fails on an empty stream. */
  lemma DecodeEmptyStream(root: Tree)
    requires root.Node?
    ensures Decode(root, []) == Failure(Truncated)
  {
  }

  /** The source's loop, reading the bits in order through a cursor. */
  method DecodeData(bits: seq<Bit>, root: Tree) returns (r: Result<seq<byte>>)
    ensures r == Decode(root, bits)
  {
    var cur := root;
    var pos := 0;
    var out: seq<byte> := [];
    while !(cur.Leaf? && cur.sym == EOF)
      invariant 0 <= pos <= |bits|
      invariant DecodeFrom(root, cur, bits[pos..], out) == Decode(root, bits)
      decreases |bits| - pos
    {
      if cur.Leaf? {
        return Failure(NoChild);
      }
      if pos == |bits| {
        return Failure(Truncated);
      }
      var bit := bits[pos];
      assert bits[pos..][1..] == bits[pos + 1..];
      pos := pos + 1;
      cur := if bit == 1 then cur.one else cur.zero;
      if cur.Leaf? && cur.sym.Lit? {
        out := out + [cur.sym.b];
        cur := root;
      }
    }
    return Success(out);
  }
}
