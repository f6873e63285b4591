/**
 Names of data disks.

 A data disk is known to the controller by its assignment id
 `<vm>-<index>` and to LVM by `basis-data-<vm>-<index>`. Both put the disk
 index after the last hyphen, so a VM id may itself contain hyphens.
 */
module Naming {

  datatype Option<+T> = None | Some(value: T)

  datatype DiskKey = DiskKey(vm: string, index: nat)

  const DATA_LV_PREFIX := "basis-data-"
  const U32_END := 0x1_0000_0000

  // --- Decimal numerals ---

  predicate IsDigit(c: char) { '0' <= c <= '9' }

  predicate IsNumeral(s: string) {
    s != [] && forall i :: 0 <= i < |s| ==> IsDigit(s[i])
  }

  function DigitValue(c: char): (d: nat)
    requires IsDigit(c)
  {
    c as int - '0' as int
  }

  function Digit(d: nat): (c: char)
    requires d < 10
    ensures IsDigit(c) && DigitValue(c) == d
  {
    ('0' as int + d) as char
  }

  function Print(n: nat): (s: string)
    ensures IsNumeral(s) && '-' !in s
  {
    if n < 10 then [Digit(n)] else Print(n / 10) + [Digit(n % 10)]
  }

  function Value(s: string): nat
    requires forall i :: 0 <= i < |s| ==> IsDigit(s[i])
  {
    if s == [] then 0 else 10 * Value(s[..|s| - 1]) + DigitValue(s[|s| - 1])
  }

  lemma {:induction false} ValueOfPrint(n: nat)
    ensures Value(Print(n)) == n
  {
    if n >= 10 {
      ValueOfPrint(n / 10);
      assert Print(n)[..|Print(n)| - 1] == Print(n / 10);
    }
  }

  lemma {:induction false} LeadingZero(s: string)
    requires forall i :: 0 <= i < |s| ==> IsDigit(s[i])
    ensures Value("0" + s) == Value(s)
  {
    if s == [] {
      assert ("0" + s)[..|"0" + s| - 1] == [];
    } else {
      assert ("0" + s)[..|"0" + s| - 1] == "0" + s[..|s| - 1];
      LeadingZero(s[..|s| - 1]);
    }
  }

  /** What Rust parses as a `u32`: digits, after one optional plus sign. */
  function ParseU32(s: string): (r: Option<nat>)
    ensures r.Some? ==> r.value < U32_END
  {
    var digits := if s != [] && s[0] == '+' then s[1..] else s;
    if IsNumeral(digits) && Value(digits) < U32_END then Some(Value(digits)) else None
  }

  lemma {:induction false} ParsePrint(n: nat)
    requires n < U32_END
    ensures ParseU32(Print(n)) == Some(n)
  {
    ValueOfPrint(n);
    assert IsDigit(Print(n)[0]);
  }

  // --- Splitting at the last hyphen ---

  function LastHyphen(s: string): (r: Option<nat>)
    ensures r.Some? ==> r.value < |s| && s[r.value] == '-' && '-' !in s[r.value + 1..]
    ensures r.None? ==> '-' !in s
  {
    if s == [] then None
    else if s[|s| - 1] == '-' then Some(|s| - 1)
    else
      assert s == s[..|s| - 1] + [s[|s| - 1]];
      var r := LastHyphen(s[..|s| - 1]);
      assert r.Some? ==> s[r.value + 1..] == s[..|s| - 1][r.value + 1..] + [s[|s| - 1]];
      r
  }

  lemma {:induction false} LastHyphenOf(vm: string, tail: string)
    requires '-' !in tail
    ensures LastHyphen(vm + "-" + tail) == Some(|vm|)
  {
    var s := vm + "-" + tail;
    if tail != [] {
      assert s[|s| - 1] == tail[|tail| - 1];
      assert s[..|s| - 1] == vm + "-" + tail[..|tail| - 1];
      LastHyphenOf(vm, tail[..|tail| - 1]);
    }
  }

  // --- The two names ---

  function AssignmentId(k: DiskKey): string {
    k.vm + "-" + Print(k.index)
  }

  function LvName(k: DiskKey): string {
    DATA_LV_PREFIX + AssignmentId(k)
  }

  function ParseLvName(name: string): Option<DiskKey> {
    if !(DATA_LV_PREFIX <= name) then None
    else
      var rest := name[|DATA_LV_PREFIX|..];
      match LastHyphen(rest)
      case None => None
      case Some(at) =>
        if at == 0 then None
        else
          match ParseU32(rest[at + 1..])
          case None => None
          case Some(index) => Some(DiskKey(rest[..at], index))
  }

  /** A printed name parses back exactly when the VM id is not empty and the index is a u32. */
  lemma ParseOfPrintedName(k: DiskKey)
    ensures ParseLvName(LvName(k)) == if k.vm != "" && k.index < U32_END then Some(k) else None
  {
    var tail := Print(k.index);
    LastHyphenOf(k.vm, tail);
    JoinPrefix(DATA_LV_PREFIX, AssignmentId(k));
    JoinHyphen(k.vm, tail);
    assert ParseU32(tail) == if k.index < U32_END then Some(k.index) else None by {
      ValueOfPrint(k.index);
      assert IsDigit(tail[0]);
    }
  }

  lemma JoinPrefix(p: string, s: string)
    ensures p <= p + s && (p + s)[|p|..] == s
  {
  }

  lemma JoinHyphen(vm: string, tail: string)
    ensures (vm + "-" + tail)[..|vm|] == vm && (vm + "-" + tail)[|vm| + 1..] == tail
  {
  }

  /** Assignment ids determine the disk, for every VM id, hyphens or none. */
  lemma AssignmentIdInjective(a: DiskKey, b: DiskKey)
    requires AssignmentId(a) == AssignmentId(b)
    ensures a == b
  {
    LastHyphenOf(a.vm, Print(a.index));
    LastHyphenOf(b.vm, Print(b.index));
    var s := AssignmentId(a);
    assert s[..|a.vm|] == a.vm && s[|a.vm| + 1..] == Print(a.index);
    assert s[..|b.vm|] == b.vm && s[|b.vm| + 1..] == Print(b.index);
    ValueOfPrint(a.index);
    ValueOfPrint(b.index);
  }

  lemma LvNameInjective(a: DiskKey, b: DiskKey)
    requires LvName(a) == LvName(b)
    ensures a == b
  {
    assert AssignmentId(a) == LvName(a)[|DATA_LV_PREFIX|..];
    assert AssignmentId(b) == LvName(b)[|DATA_LV_PREFIX|..];
    AssignmentIdInjective(a, b);
  }

  /** One digit, or no leading zero: what `Print` writes. */
  predicate Canonical(s: string) {
    IsNumeral(s) && (|s| == 1 || s[0] != '0')
  }

  lemma {:induction false} PrintIsCanonical(n: nat)
    ensures Canonical(Print(n))
    ensures n > 0 ==> Print(n)[0] != '0'
  {
    if n >= 10 { PrintIsCanonical(n / 10); }
  }

  lemma {:induction false} PrintOfValue(s: string)
    requires Canonical(s)
    ensures Print(Value(s)) == s
    decreases |s|
  {
    var init, last := s[..|s| - 1], s[|s| - 1];
    assert Digit(DigitValue(last)) == last;
    if |s| == 1 {
      assert init == [] && s == [last];
    } else {
      PrintOfValue(init);
      assert Value(init) > 0 by { assert Print(0) == ['0']; }
      assert s == init + [last];
    }
  }

  /** The text after the last hyphen, if there is one. */
  function IndexText(name: string): string {
    match LastHyphen(name)
    case None => ""
    case Some(at) => name[at + 1..]
  }

  lemma SplitPrefix(p: string, s: string)
    requires p <= s
    ensures s == p + s[|p|..]
  {
  }

  lemma SplitHyphen(s: string, at: nat)
    requires at < |s| && s[at] == '-'
    ensures s == s[..at] + "-" + s[at + 1..]
  {
  }

  lemma {:induction false} LastHyphenIsUnique(s: string, at: nat)
    requires at < |s| && s[at] == '-' && forall i :: at < i < |s| ==> s[i] != '-'
    ensures LastHyphen(s) == Some(at)
  {
    if at < |s| - 1 { LastHyphenIsUnique(s[..|s| - 1], at); }
  }

  /** A name that parses is made of the prefix, the VM id, a hyphen and the text of the index. */
  lemma NameParts(name: string)
    ensures ParseLvName(name).Some? ==>
      var k := ParseLvName(name).value;
      name == DATA_LV_PREFIX + (k.vm + "-" + IndexText(name)) && ParseU32(IndexText(name)) == Some(k.index)
  {
    if ParseLvName(name).Some? {
      var rest := name[|DATA_LV_PREFIX|..];
      var at := LastHyphen(rest).value;
      SplitPrefix(DATA_LV_PREFIX, name);
      SplitHyphen(rest, at);
      LaterHyphen(DATA_LV_PREFIX, rest, at);
    }
  }

  lemma LaterHyphen(p: string, rest: string, at: nat)
    requires at < |rest| && rest[at] == '-' && '-' !in rest[at + 1..]
    ensures IndexText(p + rest) == rest[at + 1..]
  {
    var s := p + rest;
    forall i | |p| + at < i < |s| ensures s[i] != '-' {
      assert s[i] == rest[at + 1..][i - |p| - at - 1];
    }
    LastHyphenIsUnique(s, |p| + at);
    assert s[|p| + at + 1..] == rest[at + 1..];
  }

  lemma SameIndexText(vm: string, a: string, b: string)
    ensures DATA_LV_PREFIX + (vm + "-" + a) == DATA_LV_PREFIX + (vm + "-" + b) <==> a == b
  {
    var n := |DATA_LV_PREFIX| + |vm| + 1;
    assert (DATA_LV_PREFIX + (vm + "-" + a))[n..] == a;
    assert (DATA_LV_PREFIX + (vm + "-" + b))[n..] == b;
  }

  lemma PrintParsed(s: string)
    ensures ParseU32(s).Some? ==> (Print(ParseU32(s).value) == s <==> Canonical(s))
  {
    if ParseU32(s).Some? {
      PrintIsCanonical(ParseU32(s).value);
      if Canonical(s) { PrintOfValue(s); }
    }
  }

  /**
   The reverse round trip: a name that parses is the printed name of what it
   parses to exactly when its index is written without plus sign and without
   leading zeros.
   */
  lemma ReprintIff(name: string)
    ensures ParseLvName(name).Some? ==> (LvName(ParseLvName(name).value) == name <==> Canonical(IndexText(name)))
  {
    NameParts(name);
    if ParseLvName(name).Some? {
      var k, tail := ParseLvName(name).value, IndexText(name);
      PrintParsed(tail);
      SameIndexText(k.vm, Print(k.index), tail);
    }
  }

  /** It fails for every disk: with a leading zero another name parses to it. */
  lemma LeadingZeroParsesToo(k: DiskKey)
    requires k.vm != "" && k.index < U32_END
    ensures ParseLvName(DATA_LV_PREFIX + k.vm + "-" + ("0" + Print(k.index))) == Some(k)
    ensures DATA_LV_PREFIX + k.vm + "-" + ("0" + Print(k.index)) != LvName(k)
  {
    var tail := "0" + Print(k.index);
    var rest := k.vm + "-" + tail;
    var name := DATA_LV_PREFIX + k.vm + "-" + tail;
    assert |name| != |LvName(k)|;
    assert name[|DATA_LV_PREFIX|..] == rest;
    LastHyphenOf(k.vm, tail);
    assert rest[..|k.vm|] == k.vm && rest[|k.vm| + 1..] == tail;
    ValueOfPrint(k.index);
    LeadingZero(Print(k.index));
  }
}
