/** The dice notation a group prints itself as (`DiceGroup.toString()` in
    src/diceGroup.ts), e.g. `4d6dl1dh1`, and a reader for it that shows the
    notation loses nothing. */
module DiceNotation {
  import opened Outcomes
  import opened DieTypes
  import opened DiceGroups
  import opened Numerals

  /** `toString()`: the count (bare for a D1, followed by the type name
      otherwise), then `dl<n>` if dice are dropped low, then `dh<n>` if
      dice are dropped high. */
  function ToString(g: DiceGroup): (s: string)
    ensures |s| > 0 && IsDigit(s[0])
  {
    var head := if g.dieType == D1 then FromNat(g.count) else FromNat(g.count) + Name(g.dieType);
    var low := if g.dropLowest > 0 then head + "dl" + FromNat(g.dropLowest) else head;
    if g.dropHighest > 0 then low + "dh" + FromNat(g.dropHighest) else low
  }

  /** The settings a notation spells out. */
  datatype Notation = Notation(dieType: DieType, count: nat, dropLowest: nat, dropHighest: nat)

  /** The die type with the given name. */
  function TypeNamed(name: string): (r: Option<DieType>)
    ensures r.Some? ==> Name(r.value) == name
  {
    if name == "d1" then Some(D1)
    else if name == "d4" then Some(D4)
    else if name == "d6" then Some(D6)
    else if name == "d8" then Some(D8)
    else if name == "d10" then Some(D10)
    else if name == "d12" then Some(D12)
    else if name == "d20" then Some(D20)
    else if name == "d100" then Some(D100)
    else None
  }

  /** Every type name is `d` followed by digits, and names its type. */
  lemma NameShape(t: DieType)
    ensures |Name(t)| >= 2 && Name(t)[0] == 'd' && AllDigits(Name(t)[1..])
    ensures Name(t) == "d" + Name(t)[1..]
    ensures TypeNamed(Name(t)) == Some(t)
  {
  }

  /** Reads an optional type name: `d` and digits, or nothing for a D1. A
      D1 is never written out, so an explicit `d1` is refused. */
  function ReadType(s: string): Option<(DieType, string)> {
    if |s| >= 2 && s[0] == 'd' && IsDigit(s[1]) then
      var (ds, rest) := SplitDigits(s[1..]);
      match TypeNamed("d" + ds)
      case None => None
      case Some(t) => if t == D1 then None else Some((t, rest))
    else
      Some((D1, s))
  }

  /** Reads an optional `d<tag><digits>` modifier; absent means 0. A zero
      modifier is never written out, so the digits must start with 1-9. */
  function ReadDrop(s: string, tag: char): Option<(nat, string)> {
    if |s| >= 2 && s[0] == 'd' && s[1] == tag then
      var (ds, rest) := SplitDigits(s[2..]);
      if |ds| == 0 || ds[0] == '0' then None else Some((ToNat(ds), rest))
    else
      Some((0, s))
  }

  /** Reads a whole notation: count, type, drop-lowest, drop-highest, end. */
  function Parse(s: string): Option<Notation> {
    var (cs, r1) := SplitDigits(s);
    if !Canonical(cs) then None
    else match ReadType(r1)
      case None => None
      case Some((t, r2)) =>
        match ReadDrop(r2, 'l')
        case None => None
        case Some((dl, r3)) =>
          match ReadDrop(r3, 'h')
          case None => None
          case Some((dh, r4)) =>
            if |r4| == 0 then Some(Notation(t, ToNat(cs), dl, dh)) else None
  }

  /** The printed drop modifier, or nothing when the count is 0. */
  function DropText(tag: char, n: nat): (s: string)
    ensures |s| == 0 || (|s| >= 2 && s[0] == 'd' && s[1] == tag)
  {
    if n > 0 then ['d', tag] + FromNat(n) else ""
  }

  /** Reading a printed modifier back gives the count and the rest. */
  lemma ReadDropText(tag: char, n: nat, rest: string)
    requires |rest| == 0 || (|rest| >= 2 && rest[0] == 'd' && rest[1] != tag)
    ensures ReadDrop(DropText(tag, n) + rest, tag) == Some((n, rest))
  {
    if n > 0 {
      ReadDropPresent(tag, n, rest);
    } else {
      assert DropText(tag, n) + rest == rest;
    }
  }

  lemma ReadDropPresent(tag: char, n: nat, rest: string)
    requires n > 0
    requires |rest| == 0 || (|rest| >= 2 && rest[0] == 'd' && rest[1] != tag)
    ensures ReadDrop(['d', tag] + FromNat(n) + rest, tag) == Some((n, rest))
  {
    var digits := FromNat(n);
    var s := ['d', tag] + digits + rest;
    assert s[2..] == digits + rest;
    SplitDigitsOf(digits, rest);
    ToNatFromNat(n);
  }

  /** Reading the type back after the count. */
  lemma ReadTypeText(t: DieType, rest: string)
    requires |rest| == 0 || (|rest| >= 2 && rest[0] == 'd' && !IsDigit(rest[1]))
    ensures ReadType((if t == D1 then "" else Name(t)) + rest) == Some((t, rest))
  {
    if t == D1 {
      assert "" + rest == rest;
    } else {
      NameShape(t);
      var ds := Name(t)[1..];
      var s := Name(t) + rest;
      assert s[1..] == ds + rest;
      SplitDigitsOf(ds, rest);
    }
  }

  /** The notation is faithful: reading it back recovers the type, the count
      and both drop counts. */
  lemma {:induction false} ParseToString(g: DiceGroup)
    ensures Parse(ToString(g)) == Some(Notation(g.dieType, g.count, g.dropLowest, g.dropHighest))
  {
    var typeText := if g.dieType == D1 then "" else Name(g.dieType);
    var h := DropText('h', g.dropHighest);
    var lh := DropText('l', g.dropLowest) + h;
    var tail := typeText + lh;
    PrintedParts(g);
    assert |tail| == 0 || tail[0] == 'd' by {
      NameShape(g.dieType);
    }
    SplitDigitsOf(FromNat(g.count), tail);
    ToNatFromNat(g.count);
    ReadDropText('h', g.dropHighest, "");
    assert h + "" == h;
    ReadDropText('l', g.dropLowest, h);
    ReadTypeText(g.dieType, lh);
  }

  /** Reading a type back, the text was its printed name (nothing for a D1)
      followed by the rest. */
  lemma ReadTypeInverse(s: string, t: DieType, rest: string)
    requires ReadType(s) == Some((t, rest))
    ensures s == (if t == D1 then "" else Name(t)) + rest
  {
    if |s| >= 2 && s[0] == 'd' && IsDigit(s[1]) {
      var (ds, r) := SplitDigits(s[1..]);
      assert s == "d" + ds + r;
    } else {
      assert s == "" + rest;
    }
  }

  /** Reading a modifier back, the text was the printed modifier followed by
      the rest. */
  lemma ReadDropInverse(s: string, tag: char, n: nat, rest: string)
    requires ReadDrop(s, tag) == Some((n, rest))
    ensures s == DropText(tag, n) + rest
  {
    if |s| >= 2 && s[0] == 'd' && s[1] == tag {
      var (ds, r) := SplitDigits(s[2..]);
      assert Canonical(ds);
      FromNatToNat(ds);
      assert s == ['d', tag] + ds + r;
    } else {
      assert s == "" + rest;
    }
  }

  /** Every text the reader accepts is the printed notation of what it reads. */
  lemma PrintParsed(s: string, g: DiceGroup)
    requires Parse(s) == Some(Notation(g.dieType, g.count, g.dropLowest, g.dropHighest))
    ensures ToString(g) == s
  {
    var (cs, r1) := SplitDigits(s);
    FromNatToNat(cs);
    var (t, r2) := ReadType(r1).value;
    ReadTypeInverse(r1, t, r2);
    var (dl, r3) := ReadDrop(r2, 'l').value;
    ReadDropInverse(r2, 'l', dl, r3);
    var (dh, r4) := ReadDrop(r3, 'h').value;
    ReadDropInverse(r3, 'h', dh, r4);
    assert r4 == [];
    PrintedParts(g);
  }

  /** The notation is exact: a text reads as a group's settings if and only
      if it is that group's printed notation, so no other spelling (an
      explicit `d1`, a zero modifier, a leading zero) is the notation. */
  lemma NotationExact(g: DiceGroup, s: string)
    ensures Parse(s) == Some(Notation(g.dieType, g.count, g.dropLowest, g.dropHighest)) <==> s == ToString(g)
  {
    ParseToString(g);
    if Parse(s) == Some(Notation(g.dieType, g.count, g.dropLowest, g.dropHighest)) {
      PrintParsed(s, g);
    }
  }

  /** A spelling with an explicit `d1` and zero modifiers is not notation. */
  lemma LenientSpellingRefused()
    ensures Parse("3d1dl0dh0") == None
  {
    assert SplitDigits("3d1dl0dh0") == ("3", "d1dl0dh0") by {
      SplitDigitsOf("3", "d1dl0dh0");
    }
    assert SplitDigits("1dl0dh0") == ("1", "dl0dh0") by {
      SplitDigitsOf("1", "dl0dh0");
    }
    assert "d1dl0dh0"[1..] == "1dl0dh0";
    assert TypeNamed("d1") == Some(D1);
  }

  /** The printed notation is the count followed by the three optional parts. */
  lemma PrintedParts(g: DiceGroup)
    ensures ToString(g) == FromNat(g.count) + ((if g.dieType == D1 then "" else Name(g.dieType))
      + (DropText('l', g.dropLowest) + DropText('h', g.dropHighest)))
  {
  }

  /** The notation for four d6 dropping one low and one high. */
  lemma ExampleNotation(g: DiceGroup)
    requires g.dieType == D6 && g.count == 4 && g.dropLowest == 1 && g.dropHighest == 1
    ensures ToString(g) == "4d6dl1dh1"
  {
  }

  /** A d1 group prints as its bare count; zero modifiers are left out. */
  lemma ExampleBareNotation(g: DiceGroup, h: DiceGroup)
    requires g.dieType == D1 && g.count == 3 && g.dropLowest == 0 && g.dropHighest == 0
    requires h.dieType == D20 && h.count == 2 && h.dropLowest == 0 && h.dropHighest == 1
    ensures ToString(g) == "3" && ToString(h) == "2d20dh1"
  {
  }
}
