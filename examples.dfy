/** A worked input: the three bytes "aab". */
module Examples {
  import opened HuffmanTypes
  import opened Frequency
  import opened TreeBuilder
  import opened CodeTable
  import opened Encoder
  import opened Pipeline

  /** Positions that hold no table key add nothing to the queue. */
  lemma {:induction false} SkipAbsent(table: FrequencyTable, i: nat, j: nat, q: seq<Tree>)
    requires i <= j <= SymbolCount
    requires forall k :: i <= k < j ==> SymbolAt(k) !in table
    ensures EnqueueFrom(table, i, q) == EnqueueFrom(table, j, q)
    decreases j - i
  {
    if i < j {
      SkipAbsent(table, i + 1, j, q);
    }
  }

  function AabTable(): FrequencyTable {
    map[Lit(97) := 2, Lit(98) := 1, EOF := 1]
  }

  function AabTree(): Tree {
    Node(Leaf(Lit(97), 2), Node(Leaf(Lit(98), 1), Leaf(EOF, 1), 2), 4)
  }

  /** "aab" counts as {'a': 2, 'b': 1, EOF: 1}. */
  lemma AabCounts()
    ensures FrequencyTableOf([97, 97, 98]) == AabTable()
  {
    assert [97, 97, 98][..2] == [97, 97] && [97, 97][..1] == [97] && [97][..0] == [];
  }

  /** The leaves are queued in key order ('a', 'b', EOF); 'b' and EOF weigh
      least and merge first, 'b' being ahead of EOF, and their parent (weight 2)
      queues behind 'a' (weight 2), which becomes the zero child of the root. */
  lemma AabTreeShape()
    ensures BuildTree(AabTable()) == Success(AabTree())
  {
    var table := AabTable();
    var a, b, e := Leaf(Lit(97), 2), Leaf(Lit(98), 1), Leaf(EOF, 1);
    assert SymbolAt(225) == Lit(97) && SymbolAt(226) == Lit(98) && SymbolAt(256) == EOF;
    SkipAbsent(table, 0, 225, []);
    SkipAbsent(table, 227, 256, [b, a]);
    assert Enqueue([], a) == [a] && table[SymbolAt(225)] == 2;
    assert Enqueue([a], b) == [b, a];
    assert Enqueue([b, a], e) == [b, e, a];
    calc {
      InitialQueue(table);
      EnqueueFrom(table, 225, []);
      EnqueueFrom(table, 226, [a]);
      EnqueueFrom(table, 227, [b, a]);
      EnqueueFrom(table, 256, [b, a]);
      EnqueueFrom(table, 257, [b, e, a]);
    }
    var n := Node(b, e, 2);
    assert Merge([b, e, a]) == [a, n];
    assert Merge([a, n]) == [Node(a, n, 4)];
  }

  /** 'a' gets the one-bit code "0", 'b' and EOF the two-bit codes "10" and "11". */
  lemma AabCodes()
    ensures BuildEncodingMap(AabTree()) == AabCodeMap()
  {
    var a, b, e := Leaf(Lit(97), 2), Leaf(Lit(98), 1), Leaf(EOF, 1);
    assert "" + "1" + "0" == "10" && "" + "1" + "1" == "11" && "" + "0" == "0" && "" + "1" == "1";
    assert BuildEncodingMapFrom(a, "0") == map[Lit(97) := "0"];
    assert BuildEncodingMapFrom(Node(b, e, 2), "1") == map[Lit(98) := "10"] + map[EOF := "11"];
  }

  function AabCodeMap(): CodeMap {
    map[Lit(97) := "0", Lit(98) := "10", EOF := "11"]
  }

  lemma AabDataBits()
    ensures DataBits([97, 97, 98], AabCodeMap()) == [0, 0, 1, 0]
  {
    var codes := AabCodeMap();
    var input: seq<byte> := [97, 97, 98];
    assert CodeBits("0") == [0] && CodeBits("10") == [1, 0];
    assert input[..2] == [97, 97] && input[..2][..1] == [97] && input[..1][..0] == [];
    assert DataBits(input[..1], codes) == [0];
    assert DataBits(input[..2], codes) == [0, 0];
  }

  /** "aab" is stored as that table and the bits 0 0 10 11. */
  lemma AabCompressed()
    ensures CompressOf([97, 97, 98]) == Compressed(AabTable(), [0, 0, 1, 0, 1, 1])
  {
    AabCounts();
    AabTreeShape();
    AabCodes();
    AabDataBits();
    assert CodeBits("11") == [1, 1];
  }
}
