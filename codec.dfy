/**
 * The symbol codec: the table from codes to one-character display symbols,
 * its inverse built at start-up, and the conversion of a player's tokens
 * into a row of codes.
 */
module Codec {
  import opened Constants

  /** Display symbol of every code: the empty cell, the two hint markers, the eight colours. */
  const Num2Symbol: map<int, string> := map[
    0 := "_", 1 := "x", 2 := "o",
    3 := "G", 4 := "O", 5 := "Y", 6 := "B", 7 := "K", 8 := "R", 9 := "C", 10 := "V"]

  /** No two keys of the map share a value. */
  predicate Injective(m: map<int, string>)
  {
    forall k1, k2 :: k1 in m && k2 in m && m[k1] == m[k2] ==> k1 == k2
  }

  /** r maps every value of m, and only those, back to a key of m holding it. */
  predicate Inverts(r: map<string, int>, m: map<int, string>)
  {
    (forall k :: k in m ==> m[k] in r)
    && forall v :: v in r ==> r[v] in m && m[r[v]] == v
  }

  /** A Go map read: a missing key gives the zero value. */
  function Lookup(symbols2nums: map<string, int>, symbol: string): int
  {
    if symbol in symbols2nums then symbols2nums[symbol] else Empty
  }

  /**
   * The row of codes a list of tokens stands for: one code per token, an
   * unknown token and every slot past the last token holding the empty code.
   */
  function Decode(symbols2nums: map<string, int>, symbols: seq<string>): (nums: seq<int>)
    ensures |nums| == Cols
  {
    seq(Cols, i requires 0 <= i < Cols => if i < |symbols| then Lookup(symbols2nums, symbols[i]) else Empty)
  }

  /**
   * The display symbols of a row of codes, as the board and the final reveal
   * show them: one single-character symbol per code, and two cells show the
   * same symbol exactly when they hold the same code.
   */
  function Encode(nums: seq<int>): (symbols: seq<string>)
    requires forall i :: 0 <= i < |nums| ==> nums[i] in Num2Symbol
    ensures |symbols| == |nums|
    ensures forall i :: 0 <= i < |nums| ==> |symbols[i]| == 1
    ensures forall i, j :: 0 <= i < |nums| && 0 <= j < |nums| ==> (symbols[i] == symbols[j] <==> nums[i] == nums[j])
  {
    SymbolTableInjective();
    seq(|nums|, i requires 0 <= i < |nums| => Num2Symbol[nums[i]])
  }

  /**
   * Builds the inverse of a code-to-symbol table, visiting its entries in
   * an arbitrary order (the order of a Go map range).
   */
  method ReverseMapping(num2symbols: map<int, string>) returns (symbols2nums: map<string, int>)
    ensures Inverts(symbols2nums, num2symbols)
  {
    symbols2nums := map[];
    var rest := num2symbols.Keys;
    while rest != {}
      invariant rest <= num2symbols.Keys
      invariant forall k :: k in num2symbols && k !in rest ==> num2symbols[k] in symbols2nums
      invariant forall v :: v in symbols2nums ==> symbols2nums[v] in num2symbols && num2symbols[symbols2nums[v]] == v
      decreases rest
    {
      assert (forall x :: x !in rest) ==> rest == {};
      var k :| k in rest;
      symbols2nums := symbols2nums[num2symbols[k] := k];
      rest := rest - {k};
    }
  }

  /**
   * Converts the player's tokens into a row of Cols codes. More than Cols
   * tokens would index past the fixed-size row, which the requires rules out.
   */
  method Symbols2Nums(symbols2nums: map<string, int>, symbols: seq<string>) returns (nums: seq<int>)
    requires |symbols| <= Cols
    ensures nums == Decode(symbols2nums, symbols)
  {
    nums := seq(Cols, _ => Empty);
    for i := 0 to |symbols|
      invariant |nums| == Cols
      invariant forall j :: 0 <= j < i ==> nums[j] == Lookup(symbols2nums, symbols[j])
      invariant forall j :: i <= j < Cols ==> nums[j] == Empty
    {
      nums := nums[i := Lookup(symbols2nums, symbols[i])];
    }
  }

  // ---------------------------------------------------------------------
  // Properties

  /** The symbol table is injective and covers exactly the codes 0..10. */
  lemma SymbolTableInjective()
    ensures Injective(Num2Symbol)
    ensures forall k :: k in Num2Symbol <==> 0 <= k <= 10
  {
  }

  /** The symbol table has eleven entries: the empty cell, two markers, eight colours. */
  lemma SymbolTableSize()
    ensures |Num2Symbol| == 11
  {
    assert Num2Symbol.Keys == {0, 1, 2, 3, 4, 5, 6, 7, 8, 9, 10};
    CodesSize();
  }

  /** The eleven codes are distinct. */
  lemma CodesSize()
    ensures |{0, 1, 2, 3, 4, 5, 6, 7, 8, 9, 10}| == 11
  {
  }

  /**
   * The inverse table gives back every code from its symbol, and reads
   * every symbol it knows as the code that symbol displays.
   */
  lemma SymbolRoundTrip(symbols2nums: map<string, int>)
    requires Inverts(symbols2nums, Num2Symbol)
    ensures forall k :: k in Num2Symbol ==> Num2Symbol[k] in symbols2nums && symbols2nums[Num2Symbol[k]] == k
    ensures forall v :: v in symbols2nums ==> 0 <= symbols2nums[v] <= 10 && Num2Symbol[symbols2nums[v]] == v
  {
  }

  /** Decoding the displayed symbols of a row of codes gives the row back. */
  lemma DecodeEncode(symbols2nums: map<string, int>, nums: seq<int>)
    requires Inverts(symbols2nums, Num2Symbol)
    requires |nums| == Cols && forall i :: 0 <= i < Cols ==> 0 <= nums[i] <= 10
    ensures Decode(symbols2nums, Encode(nums)) == nums
  {
  }

  /** Every decoded code is one the symbol table knows; an unknown token becomes the empty code. */
  lemma DecodedCodes(symbols2nums: map<string, int>, symbols: seq<string>)
    requires Inverts(symbols2nums, Num2Symbol)
    requires |symbols| <= Cols
    ensures forall i :: 0 <= i < Cols ==> 0 <= Decode(symbols2nums, symbols)[i] <= 10
    ensures forall i :: 0 <= i < |symbols| && (forall k :: k in Num2Symbol ==> Num2Symbol[k] != symbols[i])
                        ==> Decode(symbols2nums, symbols)[i] == Empty
  {
  }
}
