/** The die types, their declaration-order ranking, their face ranges and
    the visual model each one requests (src/die.ts, src/assets.ts). */
module DieTypes {
  import opened Outcomes

  datatype DieType = D1 | D4 | D6 | D8 | D10 | D12 | D20 | D100

  /** The string value of each enum member. */
  function Name(t: DieType): string {
    match t
    case D1 => "d1"
    case D4 => "d4"
    case D6 => "d6"
    case D8 => "d8"
    case D10 => "d10"
    case D12 => "d12"
    case D20 => "d20"
    case D100 => "d100"
  }

  /** The enum's values in declaration order, as `Object.values(DieType)` lists them. */
  const Rankings: seq<string> := ["d1", "d4", "d6", "d8", "d10", "d12", "d20", "d100"]

  /** `Array.prototype.indexOf`: the first position of `x`, or -1. */
  function IndexOf(s: seq<string>, x: string): (i: int)
    ensures -1 <= i && (i == -1 <==> x !in s)
    ensures 0 <= i ==> i < |s| && s[i] == x && x !in s[..i]
  {
    if |s| == 0 then -1
    else if s[0] == x then 0
    else
      var j := IndexOf(s[1..], x);
      if j == -1 then -1
      else
        assert s[..j + 1] == [s[0]] + s[1..][..j];
        j + 1
  }

  /** A type's rank: its position in declaration order. */
  function Rank(t: DieType): (r: int)
    ensures 0 <= r < |Rankings| && Rankings[r] == Name(t)
  {
    assert Rankings[RankOf(t)] == Name(t);
    IndexOf(Rankings, Name(t))
  }

  /** The rank each type has, written out by hand (the declaration order). */
  function RankOf(t: DieType): nat {
    match t
    case D1 => 0
    case D4 => 1
    case D6 => 2
    case D8 => 3
    case D10 => 4
    case D12 => 5
    case D20 => 6
    case D100 => 7
  }

  /** The names are pairwise distinct, so looking a type up by its name is
      looking it up by itself: the rank is the declaration position. */
  lemma RankIsDeclarationOrder(t: DieType)
    ensures Rank(t) == RankOf(t)
  {
    var r := Rank(t);
    assert Rankings[r] == Name(t);
    assert Rankings[RankOf(t)] == Name(t);
    assert Name(t) !in Rankings[..r];
  }

  /** Different types have different ranks. */
  lemma RankInjective(a: DieType, b: DieType)
    ensures Rank(a) == Rank(b) <==> a == b
  {
    RankIsDeclarationOrder(a);
    RankIsDeclarationOrder(b);
  }

  /** The number of faces a draw ranges over (a D1 always shows 1). */
  function Sides(t: DieType): nat {
    match t
    case D1 => 1
    case D4 => 4
    case D6 => 6
    case D8 => 8
    case D10 => 10
    case D12 => 12
    case D20 => 20
    case D100 => 100
  }

  /** The value of one die, given the draw `floor(n * Math.random())` the
      source would take for a type with `n` faces. A D100 is one draw over
      1..100, not two D10s. */
  function Face(t: DieType, draw: nat): (v: nat)
    requires draw < Sides(t)
    ensures 1 <= v <= Sides(t)
    ensures t == D1 ==> v == 1
    ensures t != D1 ==> v - 1 == draw
  {
    match t
    case D1 => 1
    case D4 => draw + 1
    case D6 => draw + 1
    case D8 => draw + 1
    case D10 => draw + 1
    case D12 => draw + 1
    case D20 => draw + 1
    case D100 => draw + 1
  }

  /** Every draw lies in the range the random source guarantees for `t`. */
  predicate DrawsFit(t: DieType, draws: seq<nat>) {
    forall i :: 0 <= i < |draws| ==> draws[i] < Sides(t)
  }

  /** The keys of the asset map that loads die models. */
  const AssetKeys: set<string> := {"d4", "d6", "d8", "d10", "d12", "d20"}

  /** The model a die requests: a D100 borrows the D10 model and a D1 has none. */
  function ModelType(t: DieType): (m: Option<DieType>)
    ensures m.None? <==> t == D1
    ensures t == D100 ==> m == Some(D10)
    ensures t != D1 && t != D100 ==> m == Some(t)
  {
    var modelType := if t == D100 then D10 else t;
    if modelType != D1 then Some(modelType) else None
  }

  /** Every model a die requests is one the asset map can load. */
  lemma ModelTypeHasAsset(t: DieType)
    ensures ModelType(t).Some? ==> Name(ModelType(t).value) in AssetKeys
  {
  }
}
