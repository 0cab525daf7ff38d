/** Encoding (`encodeData`): each input byte's code, in order, then the
    end-of-file code; each code character c is written as the bit c - 48. */
module Encoder {
  import opened HuffmanTypes
  import opened CodeTable

  /** Every byte of the input and the end-of-file marker have a code. */
  predicate Encodable(input: seq<byte>, codes: CodeMap) {
    && EOF in codes
    && forall i :: 0 <= i < |input| ==> Lit(input[i]) in codes
  }

  /** The codes of the bytes of `input`, concatenated in input order. */
  function DataBits(input: seq<byte>, codes: CodeMap): seq<Bit>
    requires IsCodeMap(codes)
    requires forall i :: 0 <= i < |input| ==> Lit(input[i]) in codes
    decreases |input|
  {
    if input == [] then []
    else DataBits(input[..|input| - 1], codes) + CodeBits(codes[Lit(input[|input| - 1])])
  }

  /** The whole bit stream for `input`, or MissingCode when a symbol has no code. */
  function Encode(input: seq<byte>, codes: CodeMap): Result<seq<Bit>>
    requires IsCodeMap(codes)
  {
    if Encodable(input, codes) then Success(DataBits(input, codes) + CodeBits(codes[EOF]))
    else Failure(MissingCode)
  }

  /** Encoding distributes over concatenation of inputs. */
  lemma {:induction false} DataBitsAppend(a: seq<byte>, b: seq<byte>, codes: CodeMap)
    requires IsCodeMap(codes)
    requires forall i :: 0 <= i < |a + b| ==> Lit((a + b)[i]) in codes
    ensures (forall i :: 0 <= i < |a| ==> Lit(a[i]) in codes)
    ensures (forall i :: 0 <= i < |b| ==> Lit(b[i]) in codes)
    ensures DataBits(a + b, codes) == DataBits(a, codes) + DataBits(b, codes)
    decreases |b|
  {
    assert forall i :: 0 <= i < |a| ==> a[i] == (a + b)[i];
    assert forall i :: 0 <= i < |b| ==> b[i] == (a + b)[|a| + i];
    if b == [] {
      assert a + b == a;
    } else {
      var init := b[..|b| - 1];
      assert (a + b)[..|a + b| - 1] == a + init;
      DataBitsAppend(a, init, codes);
    }
  }

  /** Writes the bits of one code after `bits`. */
  method WriteCode(bits: seq<Bit>, code: string) returns (r: seq<Bit>)
    requires IsBitString(code)
    ensures r == bits + CodeBits(code)
  {
    r := bits;
    for j := 0 to |code|
      invariant r == bits + CodeBits(code[..j])
    {
      CodeBitsAppend(code[..j], [code[j]]);
      assert code[..j + 1] == code[..j] + [code[j]];
      r := r + [code[j] as int - 48];
    }
    assert code[..|code|] == code;
  }

  /** Walks the input once, writing each byte's code, then the end-of-file code. */
  method EncodeData(input: seq<byte>, codes: CodeMap) returns (r: Result<seq<Bit>>)
    requires IsCodeMap(codes)
    ensures r == Encode(input, codes)
  {
    var out: seq<Bit> := [];
    var i := 0;
    while i < |input|
      invariant 0 <= i <= |input|
      invariant forall j :: 0 <= j < i ==> Lit(input[j]) in codes
      invariant out == DataBits(input[..i], codes)
    {
      var sym := Lit(input[i]);
      if sym !in codes {
        return Failure(MissingCode);
      }
      assert input[..i + 1][..i] == input[..i];
      out := WriteCode(out, codes[sym]);
      i := i + 1;
    }
    assert input[..i] == input;
    if EOF !in codes {
      return Failure(MissingCode);
    }
    out := WriteCode(out, codes[EOF]);
    return Success(out);
  }
}
