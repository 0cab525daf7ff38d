/** Code-table derivation (both `buildEncodingMap` overloads): a depth-first
    walk that records, for each leaf, the string of '0' (zero child) and '1'
    (one child) choices leading to it. */
module CodeTable {
  import opened HuffmanTypes

  type CodeMap = map<Symbol, string>

  /** Every code is a string of '0' and '1'. */
  predicate IsCodeMap(m: CodeMap) {
    forall s :: s in m ==> IsBitString(m[s])
  }

  /** `buildEncodingMap(tree, chosen)`: the zero subtree's codes, then the one
      subtree's codes are added; a leaf adds its own symbol with the path so far.
      Internal nodes add nothing. */
  function BuildEncodingMapFrom(t: Tree, chosen: string): (m: CodeMap)
    ensures m.Keys == LeafSymbols(t)
    ensures IsBitString(chosen) ==> IsCodeMap(m)
  {
    match t
    case Leaf(s, _) => map[s := chosen]
    case Node(z, o, _) => BuildEncodingMapFrom(z, chosen + "0") + BuildEncodingMapFrom(o, chosen + "1")
  }

  /** `buildEncodingMap(tree)`: the walk started with the empty path. */
  function BuildEncodingMap(t: Tree): (m: CodeMap)
    ensures m.Keys == LeafSymbols(t)
    ensures IsCodeMap(m)
  {
    BuildEncodingMapFrom(t, "")
  }

  /** Starting the walk with the path `a` ahead of `b` only prefixes every
      code of the walk from `b` with `a`. */
  lemma {:induction false} PrefixShift(t: Tree, a: string, b: string, s: Symbol)
    requires s in LeafSymbols(t)
    ensures BuildEncodingMapFrom(t, a + b)[s] == a + BuildEncodingMapFrom(t, b)[s]
  {
    match t
    case Leaf(_, _) =>
    case Node(z, o, _) =>
      ChildLookup(t, a + b, s);
      ChildLookup(t, b, s);
      if s in LeafSymbols(o) {
        assert (a + b) + "1" == a + (b + "1");
        PrefixShift(o, a, b + "1", s);
      } else {
        assert (a + b) + "0" == a + (b + "0");
        PrefixShift(z, a, b + "0", s);
      }
  }

  /** A symbol of the one subtree takes its code from there, any other from the zero subtree. */
  lemma ChildLookup(t: Tree, chosen: string, s: Symbol)
    requires t.Node? && s in LeafSymbols(t)
    ensures s in LeafSymbols(t.one) ==>
      BuildEncodingMapFrom(t, chosen)[s] == BuildEncodingMapFrom(t.one, chosen + "1")[s]
    ensures s !in LeafSymbols(t.one) ==>
      && s in LeafSymbols(t.zero)
      && BuildEncodingMapFrom(t, chosen)[s] == BuildEncodingMapFrom(t.zero, chosen + "0")[s]
  {
  }

  /** Prepending the choice of a child to a path from that child gives a path
      from the node. */
  lemma ReachesThroughChild(t: Tree, digit: char, code: string, s: Symbol)
    requires t.Node? && (digit == '0' || digit == '1') && IsBitString(code)
    requires Reaches(if digit == '1' then t.one else t.zero, CodeBits(code), s)
    ensures IsBitString([digit] + code) && Reaches(t, CodeBits([digit] + code), s)
  {
    CodeBitsAppend([digit], code);
    var bits := CodeBits([digit] + code);
    assert bits[0] == (if digit == '1' then 1 else 0);
    assert bits[1..] == CodeBits(code);
  }

  /** Each symbol's code is the root-to-leaf path to a leaf carrying it. */
  lemma {:induction false} CodeIsPath(t: Tree, s: Symbol)
    requires s in BuildEncodingMap(t)
    ensures Reaches(t, CodeBits(BuildEncodingMap(t)[s]), s)
  {
    match t
    case Leaf(_, _) =>
    case Node(z, o, _) =>
      assert "" + "0" == "0" && "" + "1" == "1" && "1" + "" == "1" && "0" + "" == "0";
      if s in LeafSymbols(o) {
        PrefixShift(o, "1", "", s);
        CodeIsPath(o, s);
        ReachesThroughChild(t, '1', BuildEncodingMap(o)[s], s);
      } else {
        PrefixShift(z, "0", "", s);
        CodeIsPath(z, s);
        ReachesThroughChild(t, '0', BuildEncodingMap(z)[s], s);
      }
  }

  /** No code is a prefix of the code of another symbol. */
  lemma PrefixFree(t: Tree, s: Symbol, u: Symbol)
    requires s in BuildEncodingMap(t) && u in BuildEncodingMap(t) && s != u
    ensures var a, b := BuildEncodingMap(t)[s], BuildEncodingMap(t)[u];
      !(|a| <= |b| && b[..|a|] == a)
  {
    var m := BuildEncodingMap(t);
    var a, b := m[s], m[u];
    CodeIsPath(t, s);
    CodeIsPath(t, u);
    if |a| <= |b| && b[..|a|] == a {
      CodeBitsAppend(a, b[|a|..]);
      assert b == a + b[|a|..];
      ReachesPrefix(t, CodeBits(a), CodeBits(b), s, u);
    }
  }

  /** A tree made of one leaf gives its symbol the empty code. */
  lemma SingleLeafCode(s: Symbol, w: nat)
    ensures BuildEncodingMap(Leaf(s, w)) == map[s := ""]
  {
  }

  /** In a tree with an internal root every code has at least one bit. */
  lemma CodesNonEmpty(t: Tree, s: Symbol)
    requires t.Node? && s in BuildEncodingMap(t)
    ensures |BuildEncodingMap(t)[s]| >= 1
  {
    CodeIsPath(t, s);
  }
}
