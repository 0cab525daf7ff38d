/** Values shared by every stage of the Huffman coder: symbols, bits, the
    coding tree, frequency tables and the result of an operation that can fail. */
module HuffmanTypes {

  type byte = b: int | 0 <= b < 256

  /** One bit of the compressed stream. */
  type Bit = b: int | 0 <= b <= 1

  /** A literal byte of the input, or the pseudo end-of-file marker that is
      counted once and encoded once after the data. */
  datatype Symbol = Lit(b: byte) | EOF

  /** A coding tree. Leaves carry a symbol and its count; internal nodes carry
      no symbol, only their two children and a weight. */
  datatype Tree =
    | Leaf(sym: Symbol, weight: nat)
    | Node(zero: Tree, one: Tree, weight: nat)

  type FrequencyTable = map<Symbol, nat>

  datatype Error =
    | EmptyTable    // a tree was asked of a table with no entry
    | MissingCode   // a symbol to encode has no entry in the code table
    | Truncated     // the bits ran out before the end-of-file code
    | NoChild       // decoding tried to descend below a literal leaf

  datatype Result<T> = Success(value: T) | Failure(error: Error)

  /** Number of distinct symbols: 256 literal bytes and EOF. */
  const SymbolCount: nat := 257

  /** Position of a symbol in the order in which an ordered map keyed by the
      source's int keys lists it. The byte is read into a plain `char`, taken
      here to be signed (as on x86), which gives keys -128..127: bytes 128..255
      come first, then bytes 0..127, and the end-of-file key (256) comes last. */
  function Rank(s: Symbol): (r: nat)
    ensures r < SymbolCount
    ensures s.Lit? ==> r == (if s.b >= 128 then s.b - 256 else s.b) + 128
    ensures s == EOF <==> r == SymbolCount - 1
  {
    match s
    case Lit(b) => if b >= 128 then b - 128 else b + 128
    case EOF => 256
  }

  /** The symbol at position `i` of that order. */
  function SymbolAt(i: nat): (s: Symbol)
    requires i < SymbolCount
    ensures Rank(s) == i
  {
    if i == 256 then EOF else if i < 128 then Lit(i + 128) else Lit(i - 128)
  }

  lemma RankInjective(s: Symbol, t: Symbol)
    requires Rank(s) == Rank(t)
    ensures s == t
  {
  }

  lemma SymbolAtRank(s: Symbol)
    ensures SymbolAt(Rank(s)) == s
  {
    RankInjective(SymbolAt(Rank(s)), s);
  }

  /** Sum of the counts of a table, over the symbols at positions `i` and later. */
  function TotalFrom(table: FrequencyTable, i: nat): nat
    requires i <= SymbolCount
    decreases SymbolCount - i
  {
    if i == SymbolCount then 0
    else (if SymbolAt(i) in table then table[SymbolAt(i)] else 0) + TotalFrom(table, i + 1)
  }

  /** Sum of all counts of a table. */
  function Total(table: FrequencyTable): nat {
    TotalFrom(table, 0)
  }

  /** The entries of a table, as (symbol, count) pairs, at positions `i` and later. */
  function EntriesFrom(table: FrequencyTable, i: nat): multiset<(Symbol, nat)>
    requires i <= SymbolCount
    decreases SymbolCount - i
  {
    if i == SymbolCount then multiset{}
    else
      (if SymbolAt(i) in table then multiset{(SymbolAt(i), table[SymbolAt(i)])} else multiset{})
      + EntriesFrom(table, i + 1)
  }

  function Entries(table: FrequencyTable): multiset<(Symbol, nat)> {
    EntriesFrom(table, 0)
  }

  lemma {:induction false} EntriesFromCount(table: FrequencyTable, i: nat, s: Symbol, c: nat)
    requires i <= SymbolCount
    ensures EntriesFrom(table, i)[(s, c)] ==
            if s in table && table[s] == c && Rank(s) >= i then 1 else 0
    decreases SymbolCount - i
  {
    if i < SymbolCount {
      EntriesFromCount(table, i + 1, s, c);
      if Rank(s) == i {
        SymbolAtRank(s);
      }
    }
  }

  /** Each table entry occurs exactly once among its (symbol, count) pairs. */
  lemma EntriesCount(table: FrequencyTable, s: Symbol, c: nat)
    ensures Entries(table)[(s, c)] == if s in table && table[s] == c then 1 else 0
  {
    EntriesFromCount(table, 0, s, c);
  }

  /** The leaves of a tree, as (symbol, weight) pairs. */
  function LeafEntries(t: Tree): multiset<(Symbol, nat)> {
    match t
    case Leaf(s, w) => multiset{(s, w)}
    case Node(z, o, _) => LeafEntries(z) + LeafEntries(o)
  }

  /** The symbols on the leaves of a tree. */
  function LeafSymbols(t: Tree): set<Symbol> {
    match t
    case Leaf(s, _) => {s}
    case Node(z, o, _) => LeafSymbols(z) + LeafSymbols(o)
  }

  lemma {:induction false} LeafSymbolsOfEntries(t: Tree, s: Symbol)
    ensures s in LeafSymbols(t) <==> exists c :: (s, c) in LeafEntries(t)
  {
    match t
    case Leaf(s', w) =>
      if s == s' {
        assert (s, w) in LeafEntries(t);
      }
    case Node(z, o, _) =>
      LeafSymbolsOfEntries(z, s);
      LeafSymbolsOfEntries(o, s);
      if exists c :: (s, c) in LeafEntries(t) {
        var c :| (s, c) in LeafEntries(t);
        assert (s, c) in LeafEntries(z) || (s, c) in LeafEntries(o);
      }
  }

  /** Every internal node weighs the sum of its two children. */
  predicate WellWeighted(t: Tree) {
    match t
    case Leaf(_, _) => true
    case Node(z, o, w) => w == z.weight + o.weight && WellWeighted(z) && WellWeighted(o)
  }

  /** A code as the source stores it: a string of '0' and '1' characters. */
  predicate IsBitString(code: string) {
    forall i :: 0 <= i < |code| ==> code[i] == '0' || code[i] == '1'
  }

  /** The bits a code string stands for: character c is written as the bit c - 48. */
  function CodeBits(code: string): (bits: seq<Bit>)
    requires IsBitString(code)
  {
    seq(|code|, i requires 0 <= i < |code| => (code[i] as int - 48) as Bit)
  }

  lemma CodeBitsAppend(a: string, b: string)
    requires IsBitString(a) && IsBitString(b)
    ensures IsBitString(a + b)
    ensures CodeBits(a + b) == CodeBits(a) + CodeBits(b)
  {
    assert forall i :: 0 <= i < |a + b| ==> (a + b)[i] == if i < |a| then a[i] else b[i - |a|];
  }

  /** `p` is the root-to-leaf path from `t` to a leaf carrying `s`
      (0 = take the zero child, 1 = take the one child). */
  predicate Reaches(t: Tree, p: seq<Bit>, s: Symbol)
    decreases |p|
  {
    if p == [] then t.Leaf? && t.sym == s
    else t.Node? && Reaches(if p[0] == 1 then t.one else t.zero, p[1..], s)
  }

  /** A path to a leaf is never a proper prefix of another path to a leaf, and
      two paths that reach leaves are equal when one is a prefix of the other. */
  lemma {:induction false} ReachesPrefix(t: Tree, p: seq<Bit>, q: seq<Bit>, s: Symbol, u: Symbol)
    requires Reaches(t, p, s) && Reaches(t, q, u)
    requires |p| <= |q| && q[..|p|] == p
    ensures p == q && s == u
    decreases |p|
  {
    if p != [] {
      var child := if p[0] == 1 then t.one else t.zero;
      assert q[1..][..|p| - 1] == p[1..];
      ReachesPrefix(child, p[1..], q[1..], s, u);
      assert q == [q[0]] + q[1..];
      assert p == [p[0]] + p[1..];
    }
  }
}
