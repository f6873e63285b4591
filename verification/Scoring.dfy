/** Scores compared field by field, and the label selectors that feed them. */
module Scoring {
  import opened Naming

  // --- Lexicographic order ---

  predicate Less(a: seq<int>, b: seq<int>)
    requires |a| == |b|
    decreases |a|
  {
    a != [] && (a[0] < b[0] || (a[0] == b[0] && Less(a[1..], b[1..])))
  }

  lemma {:induction false} LessIsTotal(a: seq<int>, b: seq<int>)
    requires |a| == |b|
    ensures Less(a, b) || Less(b, a) || a == b
    ensures !(Less(a, b) && Less(b, a)) && !Less(a, a)
    decreases |a|
  {
    if a != [] {
      LessIsTotal(a[1..], b[1..]);
      if a[0] == b[0] && a[1..] == b[1..] { assert a == [a[0]] + a[1..] == b; }
    }
  }

  lemma {:induction false} LessIsTransitive(a: seq<int>, b: seq<int>, c: seq<int>)
    requires |a| == |b| == |c| && Less(a, b) && Less(b, c)
    ensures Less(a, c)
    decreases |a|
  {
    if a[0] == b[0] && b[0] == c[0] { LessIsTransitive(a[1..], b[1..], c[1..]); }
  }

  lemma {:induction false} AtMostThenLess(a: seq<int>, b: seq<int>, c: seq<int>)
    requires |a| == |b| == |c| && !Less(b, a) && Less(b, c)
    ensures Less(a, c)
  {
    LessIsTotal(a, b);
    if Less(a, b) { LessIsTransitive(a, b, c); }
  }

  /** Four and six fields written out: the first that differs decides. */
  lemma {:induction false} LessOfFour(a: seq<int>, b: seq<int>)
    requires |a| == |b| == 4
    ensures Less(a, b) <==>
      (a[0] < b[0] || (a[0] == b[0] && (a[1] < b[1] || (a[1] == b[1] && (a[2] < b[2] || (a[2] == b[2] && a[3] < b[3]))))))
  {
    assert Less(a[1..], b[1..]) <==> a[1] < b[1] || (a[1] == b[1] && Less(a[1..][1..], b[1..][1..]));
    assert Less(a[1..][1..], b[1..][1..]) <==> a[2] < b[2] || (a[2] == b[2] && Less(a[1..][1..][1..], b[1..][1..][1..]));
    assert Less(a[1..][1..][1..], b[1..][1..][1..]) <==> a[3] < b[3];
  }

  lemma {:induction false} LessOfSix(a: seq<int>, b: seq<int>)
    requires |a| == |b| == 6
    ensures Less(a, b) <==>
      (a[0] < b[0] || (a[0] == b[0] && (a[1] < b[1] || (a[1] == b[1] && Less(a[2..], b[2..])))))
    ensures Less(a[2..], b[2..]) <==>
      (a[2] < b[2] || (a[2] == b[2] && (a[3] < b[3] || (a[3] == b[3] && (a[4] < b[4] || (a[4] == b[4] && a[5] < b[5]))))))
  {
    assert a[1..][1..] == a[2..] && b[1..][1..] == b[2..];
    assert Less(a[1..], b[1..]) <==> a[1] < b[1] || (a[1] == b[1] && Less(a[1..][1..], b[1..][1..]));
    LessOfFour(a[2..], b[2..]);
  }

  // --- Selectors ---

  datatype Requirement = Requirement(key: string, values: seq<string>)
  datatype Preference = Preference(key: string, value: string, weight: nat)

  datatype Placement = Placement(requirements: seq<Requirement>, preferences: seq<Preference>) {
    /** Every requirement names a label the host has, with one of the listed values. */
    predicate Satisfies(labels: map<string, string>) {
      forall r <- requirements :: r.key in labels && labels[r.key] in r.values
    }

    /** The weights of the preferences that match, added up in 32 bits. */
    function Score(labels: map<string, string>): nat {
      Weight(preferences, labels) % U32_END
    }
  }

  function Weight(preferences: seq<Preference>, labels: map<string, string>): nat
    decreases |preferences|
  {
    if preferences == [] then 0
    else
      var p := preferences[0];
      (if p.key in labels && labels[p.key] == p.value then p.weight else 0) + Weight(preferences[1..], labels)
  }

  /** Each preference counts with its weight exactly when the label has its value, wherever it is in the list. */
  lemma {:induction false} WeightOfOne(preferences: seq<Preference>, labels: map<string, string>, i: nat)
    requires i < |preferences|
    ensures var p := preferences[i];
      Weight(preferences, labels) == Weight(preferences[..i] + preferences[i + 1..], labels)
        + if p.key in labels && labels[p.key] == p.value then p.weight else 0
    decreases |preferences|
  {
    var rest := preferences[..i] + preferences[i + 1..];
    if i == 0 {
      assert rest == preferences[1..];
    } else {
      var tail := preferences[1..];
      WeightOfOne(tail, labels, i - 1);
      assert tail[..i - 1] + tail[i..] == rest[1..] && rest[0] == preferences[0];
    }
  }

  const ANYWHERE := Placement([], [])
}
