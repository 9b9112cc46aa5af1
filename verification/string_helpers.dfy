/** Runtime/StringHelpers.cs: separator-joining of optional values and the
    case-insensitive unique-name generator used when controls are added to a
    layout. A C# `null` string is `None`; strings are sequences, generic in the
    element type where the source is generic. */
module StringHelpers {
  import opened Common

  // ---------------------------------------------------------------------------
  // Join

  /** The values Join keeps: the non-null, non-empty ones, in input order. */
  function NonEmptyValues<T>(values: seq<Option<seq<T>>>): (kept: seq<seq<T>>)
    ensures |kept| <= |values|
    ensures forall i :: 0 <= i < |kept| ==> kept[i] != []
  {
    if values == [] then []
    else
      var last := values[|values| - 1];
      NonEmptyValues(values[..|values| - 1]) + (if last.Some? && last.value != [] then [last.value] else [])
  }

  /** The parts with exactly one separator between neighbours and none at either end. */
  function Interleave<T>(parts: seq<seq<T>>, separator: seq<T>): seq<T>
    requires parts != []
  {
    if |parts| == 1 then parts[0]
    else Interleave(parts[..|parts| - 1], separator) + separator + parts[|parts| - 1]
  }

  /** What `StringHelpers.Join` returns: null when nothing is kept, otherwise
      the kept values interleaved with the separator. */
  function Joined<T>(values: seq<Option<seq<T>>>, separator: seq<T>): (r: Option<seq<T>>)
    ensures r.None? <==> NonEmptyValues(values) == []
    ensures |NonEmptyValues(values)| == 1 ==> r == Some(NonEmptyValues(values)[0])
  {
    var kept := NonEmptyValues(values);
    if kept == [] then None else Some(Interleave(kept, separator))
  }

  /** `Join(values, separator)`: the loop counts the kept values, remembers the
      first and starts a builder once a second one arrives. */
  method Join<T>(values: seq<Option<seq<T>>>, separator: seq<T>) returns (r: Option<seq<T>>)
    ensures r == Joined(values, separator)
  {
    var firstValue: seq<T> := [];
    var valueCount := 0;
    var result: seq<T> := [];  // the StringBuilder; only read once valueCount >= 2
    for i := 0 to |values|
      invariant valueCount == |NonEmptyValues(values[..i])|
      invariant valueCount >= 1 ==> firstValue == NonEmptyValues(values[..i])[0]
      invariant valueCount >= 2 ==> result == Interleave(NonEmptyValues(values[..i]), separator)
    {
      ghost var before := NonEmptyValues(values[..i]);
      KeptStep(values, i);
      var value := values[i];
      if value.None? {
        continue;
      }
      var str := value.value;
      if str == [] {
        continue;
      }
      valueCount := valueCount + 1;
      if valueCount == 1 {
        firstValue := str;
        continue;
      }
      InterleaveAppend(before, str, separator);
      if valueCount == 2 {
        result := firstValue;
      }
      result := result + separator + str;
    }
    assert values[..|values|] == values;
    ghost var kept := NonEmptyValues(values);
    if valueCount == 0 {
      assert kept == [];
      return None;
    }
    if valueCount == 1 {
      return Some(firstValue);
    }
    return Some(result);
  }

  /** One more value: kept at the end when it is present and non-empty. */
  lemma KeptStep<T>(values: seq<Option<seq<T>>>, i: nat)
    requires i < |values|
    ensures values[i].None? || values[i].value == [] ==> NonEmptyValues(values[..i + 1]) == NonEmptyValues(values[..i])
    ensures values[i].Some? && values[i].value != [] ==>
      NonEmptyValues(values[..i + 1]) == NonEmptyValues(values[..i]) + [values[i].value]
  {
    assert values[..i + 1][..i] == values[..i];
    assert NonEmptyValues(values[..i]) + [] == NonEmptyValues(values[..i]);
  }

  lemma InterleaveAppend<T>(parts: seq<seq<T>>, last: seq<T>, separator: seq<T>)
    requires parts != []
    ensures Interleave(parts + [last], separator) == Interleave(parts, separator) + separator + last
    ensures |parts| == 1 ==> Interleave(parts, separator) == parts[0]
  {
    assert (parts + [last])[..|parts|] == parts;
  }

  lemma {:induction false} NonEmptyValuesAppend<T>(a: seq<Option<seq<T>>>, b: seq<Option<seq<T>>>)
    ensures NonEmptyValues(a + b) == NonEmptyValues(a) + NonEmptyValues(b)
  {
    if b != [] {
      assert (a + b)[..|a + b| - 1] == a + b[..|b| - 1];
      NonEmptyValuesAppend(a, b[..|b| - 1]);
    } else {
      assert a + b == a;
    }
  }

  /** A null or empty value anywhere in the input leaves the result unchanged. */
  lemma JoinSkipsNullOrEmpty<T>(a: seq<Option<seq<T>>>, v: Option<seq<T>>, b: seq<Option<seq<T>>>, separator: seq<T>)
    requires v.None? || v.value == []
    ensures Joined(a + [v] + b, separator) == Joined(a + b, separator)
  {
    NonEmptyValuesAppend(a + [v], b);
    NonEmptyValuesAppend(a, [v]);
    NonEmptyValuesAppend(a, b);
    assert NonEmptyValues([v]) == [] by {
      assert [v][..0] == [];
    }
    assert NonEmptyValues(a + [v] + b) == NonEmptyValues(a + b);
  }

  /** Join of two values, the form the layout builder uses: both when both
      are non-empty, else whichever is, else null. */
  lemma JoinPair<T>(a: Option<seq<T>>, b: Option<seq<T>>, separator: seq<T>)
    ensures Joined([a, b], separator) ==
      if a.Some? && a.value != [] && b.Some? && b.value != [] then Some(a.value + separator + b.value)
      else if a.Some? && a.value != [] then a
      else if b.Some? && b.value != [] then b
      else None
  {
    var values := [a, b];
    assert values[..|values| - 1] == [a];
    assert [a][..|[a]| - 1] == [];
    var first := if a.Some? && a.value != [] then [a.value] else [];
    assert NonEmptyValues([a]) == first;
    var kept := first + (if b.Some? && b.value != [] then [b.value] else []);
    assert NonEmptyValues(values) == kept;
    if |kept| == 2 {
      assert kept[..1] == [a.value];
      assert Interleave(kept, separator) == Interleave(kept[..1], separator) + separator + kept[1];
    }
  }

  /** Index of the last occurrence of c in s. */
  function LastIndexOf<T(==)>(s: seq<T>, c: T): (k: nat)
    requires c in s
    ensures k < |s| && s[k] == c && c !in s[k + 1..]
  {
    if s[|s| - 1] == c then |s| - 1 else LastIndexOf(s[..|s| - 1], c)
  }

  /** s cut at every occurrence of c (the inverse of joining with [c]). */
  function SplitOn<T(==)>(s: seq<T>, c: T): (parts: seq<seq<T>>)
    ensures parts != []
    decreases |s|
  {
    if c !in s then [s]
    else
      var k := LastIndexOf(s, c);
      SplitOn(s[..k], c) + [s[k + 1..]]
  }

  /** Joining with a one-element separator that occurs in no part loses
      nothing: cutting at the separator gives the parts back. */
  lemma {:induction false} SplitInterleave<T>(parts: seq<seq<T>>, c: T)
    requires parts != []
    requires forall i :: 0 <= i < |parts| ==> c !in parts[i]
    ensures SplitOn(Interleave(parts, [c]), c) == parts
  {
    if |parts| > 1 {
      var init := parts[..|parts| - 1];
      var last := parts[|parts| - 1];
      var a := Interleave(init, [c]);
      var s := a + [c] + last;
      assert s == Interleave(parts, [c]);
      assert s[|a|] == c;
      assert s[|a| + 1..] == last;
      LastIndexOfAt(s, c, |a|);
      assert s[..|a|] == a;
      SplitInterleave(init, c);
    }
  }

  /** The last occurrence is the one with no occurrence after it. */
  lemma LastIndexOfAt<T>(s: seq<T>, c: T, k: nat)
    requires k < |s| && s[k] == c && c !in s[k + 1..]
    ensures LastIndexOf(s, c) == k
  {
  }

  /** Join round trip: when no kept value contains the one-character separator,
      splitting the joined text returns exactly the kept values, in order. */
  lemma JoinSplitRoundTrip<T>(values: seq<Option<seq<T>>>, c: T)
    requires NonEmptyValues(values) != []
    requires forall i :: 0 <= i < |NonEmptyValues(values)| ==> c !in NonEmptyValues(values)[i]
    ensures Joined(values, [c]).Some?
    ensures SplitOn(Joined(values, [c]).value, c) == NonEmptyValues(values)
  {
    SplitInterleave(NonEmptyValues(values), c);
  }

  // ---------------------------------------------------------------------------
  // MakeUniqueName

  /** No existing name equals `name` after lower-casing both. */
  predicate IsFreeName(name: string, existing: seq<string>)
  {
    forall i :: 0 <= i < |existing| ==> Lower(existing[i]) != Lower(name)
  }

  /** Start of the run of decimal digits that ends the string. */
  function TrailingDigitsStart(s: string): (k: nat)
    ensures k <= |s|
    ensures forall i :: k <= i < |s| ==> IsDigit(s[i])
    ensures k == 0 || !IsDigit(s[k - 1])
  {
    if s == [] || !IsDigit(s[|s| - 1]) then |s| else TrailingDigitsStart(s[..|s| - 1])
  }

  lemma TrailingDigitsStartUnique(s: string, k: nat)
    requires k <= |s|
    requires forall i :: k <= i < |s| ==> IsDigit(s[i])
    requires k == 0 || !IsDigit(s[k - 1])
    ensures k == TrailingDigitsStart(s)
  {
  }

  function MaxLength(names: seq<string>): (m: nat)
    ensures forall i :: 0 <= i < |names| ==> |names[i]| <= m
  {
    if names == [] then 0
    else
      var rest := MaxLength(names[1..]);
      if |names[0]| > rest then |names[0]| else rest
  }

  /** A candidate longer than every existing name cannot collide with one. */
  lemma LongCandidateIsFree(prefix: string, n: nat, existing: seq<string>)
    ensures n >= Pow10(MaxLength(existing)) ==> IsFreeName(prefix + NatToDecimal(n), existing)
  {
    if n >= Pow10(MaxLength(existing)) {
      DecimalLength(n, MaxLength(existing));
    }
  }

  /** The first n' >= n whose candidate prefix + n' is free. */
  function FirstFreeIndex(prefix: string, n: nat, existing: seq<string>): (k: nat)
    ensures n <= k
    ensures IsFreeName(prefix + NatToDecimal(k), existing)
    ensures forall j :: n <= j < k ==> !IsFreeName(prefix + NatToDecimal(j), existing)
    decreases Pow10(MaxLength(existing)) - n
  {
    if IsFreeName(prefix + NatToDecimal(n), existing) then n
    else
      LongCandidateIsFree(prefix, n, existing);
      FirstFreeIndex(prefix, n + 1, existing)
  }

  /** The counter the retries start from: one past the trailing number of
      the base name, or 1 when it has none. */
  function FirstCounter(baseName: string): nat
  {
    var k := TrailingDigitsStart(baseName);
    if k == |baseName| then 1 else ParseDecimal(baseName[k..]) + 1
  }

  /** What `MakeUniqueName` returns. */
  function UniqueName(baseName: string, existingSet: Option<seq<string>>): (name: string)
    ensures existingSet.None? ==> name == baseName
    ensures existingSet.Some? ==> IsFreeName(name, existingSet.value)
    ensures existingSet.Some? && IsFreeName(baseName, existingSet.value) ==> name == baseName
    ensures existingSet.Some? && !IsFreeName(baseName, existingSet.value) ==>
      var prefix := baseName[..TrailingDigitsStart(baseName)];
      exists k :: FirstCounter(baseName) <= k && name == prefix + NatToDecimal(k) &&
        forall j :: FirstCounter(baseName) <= j < k ==> !IsFreeName(prefix + NatToDecimal(j), existingSet.value)
  {
    match existingSet
    case None => baseName
    case Some(names) =>
      if IsFreeName(baseName, names) then baseName
      else
        var prefix := baseName[..TrailingDigitsStart(baseName)];
        prefix + NatToDecimal(FirstFreeIndex(prefix, FirstCounter(baseName), names))
  }

  /** Where the retry loop ends when it is about to check `name` and the next
      counter is n. */
  function Settle(name: string, prefix: string, n: nat, existing: seq<string>): string
  {
    if IsFreeName(name, existing) then name else prefix + NatToDecimal(FirstFreeIndex(prefix, n, existing))
  }

  /** How many more checks the retry loop makes from that point. */
  function RetriesLeft(name: string, prefix: string, n: nat, existing: seq<string>): (k: nat)
    ensures k >= 1
  {
    if IsFreeName(name, existing) then 1 else 2 + FirstFreeIndex(prefix, n, existing) - n
  }

  /** A collision moves the loop to the next candidate without changing where it ends. */
  lemma RetryStep(name: string, prefix: string, n: nat, existing: seq<string>)
    requires !IsFreeName(name, existing)
    ensures Settle(prefix + NatToDecimal(n), prefix, n + 1, existing) == Settle(name, prefix, n, existing)
    ensures RetriesLeft(prefix + NatToDecimal(n), prefix, n + 1, existing) < RetriesLeft(name, prefix, n, existing)
  {
  }

  /** The digit-stripping step of `MakeUniqueName`: the name without its
      trailing digits, and the counter to start from. */
  method SplitTrailingNumber(baseName: string) returns (prefix: string, namesTried: nat)
    ensures prefix == baseName[..TrailingDigitsStart(baseName)]
    ensures namesTried == FirstCounter(baseName)
  {
    namesTried := 1;
    prefix := baseName;
    // If the name ends in digits, start counting from the given number.
    if |baseName| > 0 {
      var lastDigit := |baseName|;
      while lastDigit > 0 && IsDigit(baseName[lastDigit - 1])
        invariant 0 <= lastDigit <= |baseName|
        invariant forall i :: lastDigit <= i < |baseName| ==> IsDigit(baseName[i])
      {
        lastDigit := lastDigit - 1;
      }
      TrailingDigitsStartUnique(baseName, lastDigit);
      if lastDigit != |baseName| {
        namesTried := ParseDecimal(baseName[lastDigit..]) + 1;
        prefix := baseName[..lastDigit];
      }
    }
  }

  /** The inner `foreach` of the retry loop: does some existing name lower-case
      to `nameLowerCase`? It stops at the first match. */
  method MatchesAny(names: seq<string>, nameLowerCase: string) returns (taken: bool)
    ensures !taken <==> forall j :: 0 <= j < |names| ==> Lower(names[j]) != nameLowerCase
  {
    for i := 0 to |names|
      invariant forall j :: 0 <= j < i ==> Lower(names[j]) != nameLowerCase
    {
      if Lower(names[i]) == nameLowerCase {
        return true;
      }
    }
    return false;
  }

  /** The retry loop, started on the base name with the first counter, ends on `UniqueName`. */
  lemma UniqueNameSettles(baseName: string, names: seq<string>)
    ensures UniqueName(baseName, Some(names)) ==
      Settle(baseName, baseName[..TrailingDigitsStart(baseName)], FirstCounter(baseName), names)
  {
  }

  /** `MakeUniqueName(baseName, existingSet, x => x)`: strip the trailing
      digits to find the counter, then retry prefix + counter until no
      existing name matches case-insensitively. */
  method MakeUniqueName(baseName: string, existingSet: Option<seq<string>>) returns (name: string)
    ensures name == UniqueName(baseName, existingSet)
  {
    if existingSet.None? {
      return baseName;
    }
    var names := existingSet.value;

    name := baseName;
    var nameLowerCase := Lower(name);
    var nameIsUnique := false;
    var prefix, namesTried := SplitTrailingNumber(baseName);
    ghost var target := Settle(name, prefix, namesTried, names);
    UniqueNameSettles(baseName, names);
    ghost var retriesLeft := RetriesLeft(name, prefix, namesTried, names);

    // Find unique name.
    while !nameIsUnique
      invariant nameLowerCase == Lower(name)
      invariant nameIsUnique ==> name == target
      invariant !nameIsUnique ==> Settle(name, prefix, namesTried, names) == target
      invariant !nameIsUnique ==> retriesLeft == RetriesLeft(name, prefix, namesTried, names)
      decreases if nameIsUnique then 0 else retriesLeft
    {
      nameIsUnique := true;
      var taken := MatchesAny(names, nameLowerCase);
      if taken {
        RetryStep(name, prefix, namesTried, names);
        name := prefix + NatToDecimal(namesTried);
        nameLowerCase := Lower(name);
        nameIsUnique := false;
        namesTried := namesTried + 1;
        retriesLeft := RetriesLeft(name, prefix, namesTried, names);
      }
    }
  }
}
