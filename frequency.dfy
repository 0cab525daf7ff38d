/** Frequency counting (`buildFrequencyTable`): one count per byte read, and
    one count for the end-of-file marker. */
module Frequency {
  import opened HuffmanTypes

  /** `m[k]++` on a map whose absent keys read as zero. */
  function Bump(m: FrequencyTable, k: Symbol): FrequencyTable {
    m[k := (if k in m then m[k] else 0) + 1]
  }

  /** The table after reading every byte of `s`, before the end-of-file count. */
  function Counts(s: seq<byte>): FrequencyTable
    decreases |s|
  {
    if s == [] then map[] else Bump(Counts(s[..|s| - 1]), Lit(s[|s| - 1]))
  }

  /** The frequency table of an input: its byte counts plus one end-of-file count. */
  function FrequencyTableOf(s: seq<byte>): FrequencyTable {
    Bump(Counts(s), EOF)
  }

  lemma {:induction false} CountsAreOccurrences(s: seq<byte>)
    ensures forall k :: k in Counts(s) <==> k.Lit? && k.b in s
    ensures forall k :: k in Counts(s) ==> Counts(s)[k] == multiset(s)[k.b]
    decreases |s|
  {
    if s != [] {
      var init, last := s[..|s| - 1], s[|s| - 1];
      CountsAreOccurrences(init);
      assert s == init + [last];
      assert multiset(s) == multiset(init) + multiset{last};
    }
  }

  lemma {:induction false} TotalFromBump(m: FrequencyTable, k: Symbol, i: nat)
    requires i <= SymbolCount
    ensures TotalFrom(Bump(m, k), i) == TotalFrom(m, i) + (if Rank(k) >= i then 1 else 0)
    decreases SymbolCount - i
  {
    if i < SymbolCount {
      TotalFromBump(m, k, i + 1);
      if Rank(k) == i {
        SymbolAtRank(k);
      }
    }
  }

  lemma {:induction false} TotalFromEmpty(i: nat)
    requires i <= SymbolCount
    ensures TotalFrom(map[], i) == 0
    decreases SymbolCount - i
  {
    if i < SymbolCount {
      TotalFromEmpty(i + 1);
    }
  }

  lemma {:induction false} TotalCounts(s: seq<byte>)
    ensures Total(Counts(s)) == |s|
    decreases |s|
  {
    if s == [] {
      TotalFromEmpty(0);
    } else {
      var init := s[..|s| - 1];
      TotalCounts(init);
      TotalFromBump(Counts(init), Lit(s[|s| - 1]), 0);
      assert Counts(s) == Bump(Counts(init), Lit(s[|s| - 1]));
    }
  }

  /** The table has an entry for EOF and for every byte of the input and for
      nothing else; each byte's count is its number of occurrences, EOF's count
      is one, and the counts add up to the input length plus one. */
  lemma FrequencyTableCounts(s: seq<byte>)
    ensures forall k :: k in FrequencyTableOf(s) <==> k == EOF || (k.Lit? && k.b in s)
    ensures forall b :: b in s ==> FrequencyTableOf(s)[Lit(b)] == multiset(s)[b]
    ensures FrequencyTableOf(s)[EOF] == 1
    ensures Total(FrequencyTableOf(s)) == |s| + 1
  {
    CountsAreOccurrences(s);
    TotalCounts(s);
    TotalFromBump(Counts(s), EOF, 0);
    forall b | b in s
      ensures FrequencyTableOf(s)[Lit(b)] == multiset(s)[b]
    {
      assert Lit(b) in Counts(s);
    }
  }

  /** An empty input gives the table {EOF: 1}. */
  lemma EmptyInputTable()
    ensures FrequencyTableOf([]) == map[EOF := 1]
  {
  }

  /** Reads the input once, counting each byte, then counts EOF once. */
  method BuildFrequencyTable(input: seq<byte>) returns (table: FrequencyTable)
    ensures table == FrequencyTableOf(input)
  {
    table := map[];
    var i := 0;
    while i < |input|
      invariant 0 <= i <= |input|
      invariant table == Counts(input[..i])
    {
      assert input[..i + 1][..i] == input[..i];
      table := Bump(table, Lit(input[i]));
      i := i + 1;
    }
    assert input[..i] == input;
    table := Bump(table, EOF);
  }
}
