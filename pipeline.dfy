/** `compress` and `decompress`: compress counts the input, builds the tree and
    its code table, stores the table and then the encoded bits; decompress
    rebuilds the tree from the stored table (it does not count anything) and
    decodes the bits with it. */
module Pipeline {
  import opened HuffmanTypes
  import opened Frequency
  import opened TreeBuilder
  import opened CodeTable
  import opened Encoder
  import opened Decoder

  /** What compress writes: the frequency table, then the encoded bits. */
  datatype Compressed = Compressed(table: FrequencyTable, bits: seq<Bit>)

  /** Decoding the concatenated codes of some bytes emits exactly those bytes,
      in order, and leaves the cursor at the root. */
  lemma {:induction false} DecodeDataBits(root: Tree, input: seq<byte>, tail: seq<Bit>, out: seq<byte>)
    requires root.Node?
    requires forall i :: 0 <= i < |input| ==> Lit(input[i]) in BuildEncodingMap(root)
    ensures DecodeFrom(root, root, DataBits(input, BuildEncodingMap(root)) + tail, out)
         == DecodeFrom(root, root, tail, out + input)
    decreases |input|
  {
    var codes := BuildEncodingMap(root);
    if input == [] {
      assert [] + tail == tail && out + input == out;
    } else {
      var init, last := input[..|input| - 1], input[|input| - 1];
      var p := CodeBits(codes[Lit(last)]);
      assert DataBits(input, codes) + tail == DataBits(init, codes) + (p + tail);
      DecodeDataBits(root, init, p + tail, out);
      CodeIsPath(root, Lit(last));
      CodesNonEmpty(root, Lit(last));
      DecodeLiteral(root, root, p, tail, out + init, last);
      assert out + init + [last] == out + input;
    }
  }

  /** For any table holding the end-of-file marker and every byte of the input,
      the encoding through that table's tree and code table succeeds, and
      decoding it with the same tree gives back the input, whatever bits
      (such as the padding of the last byte) follow it. */
  lemma RoundTrip(input: seq<byte>, table: FrequencyTable, pad: seq<Bit>)
    requires EOF in table
    requires forall i :: 0 <= i < |input| ==> Lit(input[i]) in table
    ensures var tree := BuildTree(table).value;
      var codes := BuildEncodingMap(tree);
      && Encode(input, codes).Success?
      && Decode(tree, Encode(input, codes).value + pad) == Success(input)
  {
    var tree := BuildTree(table).value;
    var codes := BuildEncodingMap(tree);
    BuildTreeSymbols(table);
    assert Encodable(input, codes);
    var eofBits := CodeBits(codes[EOF]);
    var bits := Encode(input, codes).value;
    assert bits + pad == DataBits(input, codes) + (eofBits + pad);
    if input != [] {
      assert Lit(input[0]) in LeafSymbols(tree) && EOF in LeafSymbols(tree);
      assert tree.Node?;
      DecodeDataBits(tree, input, eofBits + pad, []);
      assert [] + input == input;
    } else {
      assert bits + pad == eofBits + pad;
    }
    assert Decode(tree, bits + pad) == DecodeFrom(tree, tree, eofBits + pad, input);
    CodeIsPath(tree, EOF);
    DecodeEof(tree, tree, eofBits, pad, input);
  }

  /** The stored form compress produces for an input. */
  function CompressOf(input: seq<byte>): Compressed {
    var table := FrequencyTableOf(input);
    FrequencyTableCounts(input);
    RoundTrip(input, table, []);
    Compressed(table, Encode(input, BuildEncodingMap(BuildTree(table).value)).value)
  }

  /** The bytes decompress recovers from a stored form; an empty table has no tree. */
  function DecompressOf(c: Compressed): Result<seq<byte>> {
    match BuildTree(c.table)
    case Failure(e) => Failure(e)
    case Success(tree) => Decode(tree, c.bits)
  }

  /** Decompressing what compress stored gives back the input, also when the
      bit stream carries padding after the end-of-file code. */
  lemma CompressRoundTrip(input: seq<byte>, pad: seq<Bit>)
    ensures DecompressOf(Compressed(CompressOf(input).table, CompressOf(input).bits + pad)) == Success(input)
  {
    FrequencyTableCounts(input);
    RoundTrip(input, FrequencyTableOf(input), pad);
  }

  /** The empty input is stored as the table {EOF: 1}, whose tree is a single
      leaf, and no bits at all; it decompresses to the empty input. */
  lemma CompressEmpty()
    ensures CompressOf([]) == Compressed(map[EOF := 1], [])
    ensures BuildTree(map[EOF := 1]) == Success(Leaf(EOF, 1))
    ensures DecompressOf(CompressOf([])) == Success([])
  {
    EmptyInputTable();
    BuildTreeSingle(EOF, 1);
    SingleLeafCode(EOF, 1);
  }

  /** Counts the input, builds the tree and its code table, then encodes the
      input a second time from its start. It has no loop of its own: it chains
      the loop methods of the stages, and is proved to compute `CompressOf`. */
  method Compress(input: seq<byte>) returns (c: Compressed)
    ensures c == CompressOf(input)
    ensures c.table == FrequencyTableOf(input)
    ensures DecompressOf(c) == Success(input)
  {
    var table := BuildFrequencyTable(input);
    var tree := BuildEncodingTree(table);
    var codes := BuildEncodingMap(tree.value);
    FrequencyTableCounts(input);
    RoundTrip(input, table, []);
    var bits := EncodeData(input, codes);
    c := Compressed(table, bits.value);
    assert c.bits + [] == c.bits;
  }

  /** Rebuilds the tree from the stored table and decodes the stored bits. Like
      `Compress`, it only chains the loop methods and computes `DecompressOf`. */
  method Decompress(c: Compressed) returns (r: Result<seq<byte>>)
    ensures r == DecompressOf(c)
  {
    var tree := BuildEncodingTree(c.table);
    if tree.Failure? {
      return Failure(tree.error);
    }
    r := DecodeData(c.bits, tree.value);
  }
}
