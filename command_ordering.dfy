/**
 * The overload priority inside one (name, arity) bucket: parameter types are
 * compared position by position by their index in the parser registration
 * list, and the bucket is stable-sorted by that comparison.
 */
module CommandOrdering {
  import opened PublicCommandDataTypes
  import opened InternalCommandDataTypes

  /** Kotlin's `List.indexOf`: the first index holding `t`, or -1. */
  function IndexOf(types: seq<ArgType>, t: ArgType): (r: int)
    ensures -1 <= r < |types|
    ensures r == -1 <==> t !in types
    ensures 0 <= r ==> types[r] == t && t !in types[..r]
  {
    if types == [] then -1
    else if types[0] == t then 0
    else
      var k := IndexOf(types[1..], t);
      assert types == [types[0]] + types[1..];
      if k == -1 then -1
      else
        assert types[..k + 1] == [types[0]] + types[1..][..k];
        k + 1
  }

  /** The registry index of each parameter's type, in parameter order. */
  function PriorityKey(types: seq<ArgType>, info: InternalCommandInfo): seq<int> {
    var ps := info.commandInfo.parameters;
    seq(|ps|, i requires 0 <= i < |ps| => IndexOf(types, ps[i].paramType))
  }

  /** Zip the two keys and return the difference at the first position where they differ, 0 if none. */
  function FirstDifference(a: seq<int>, b: seq<int>): int {
    if a == [] || b == [] then 0
    else if a[0] != b[0] then a[0] - b[0]
    else FirstDifference(a[1..], b[1..])
  }

  /**
   * `CommandInfoComparator.compare`: 0 when the zipped priority keys agree
   * everywhere, otherwise the difference of the keys at some position before
   * which they agree.
   */
  function Compare(types: seq<ArgType>, first: InternalCommandInfo, second: InternalCommandInfo): (r: int)
    ensures PriorityKey(types, first) == PriorityKey(types, second) ==> r == 0
  {
    var kx, ky := PriorityKey(types, first), PriorityKey(types, second);
    FirstDifferenceSelf(kx);
    FirstDifference(kx, ky)
  }

  /** A key never differs from itself. */
  lemma {:induction false} FirstDifferenceSelf(a: seq<int>)
    ensures FirstDifference(a, a) == 0
  {
    if a != [] {
      FirstDifferenceSelf(a[1..]);
    }
  }

  // ---------------------------------------------------------------------------
  // Properties of the comparison

  lemma {:induction false} FirstDifferenceAntisymmetric(a: seq<int>, b: seq<int>)
    ensures FirstDifference(a, b) == -FirstDifference(b, a)
  {
    if a != [] && b != [] && a[0] == b[0] {
      FirstDifferenceAntisymmetric(a[1..], b[1..]);
    }
  }

  lemma {:induction false} FirstDifferenceZero(a: seq<int>, b: seq<int>)
    ensures FirstDifference(a, b) == 0 <==> forall i :: 0 <= i < |a| && i < |b| ==> a[i] == b[i]
  {
    if a != [] && b != [] && a[0] == b[0] {
      FirstDifferenceZero(a[1..], b[1..]);
      assert forall i :: 1 <= i < |a| && i < |b| ==> a[1..][i - 1] == a[i] && b[1..][i - 1] == b[i];
    }
  }

  /** A non-zero first difference is the difference at a position before which the keys agree. */
  lemma {:induction false} FirstDifferenceDecided(a: seq<int>, b: seq<int>)
    ensures FirstDifference(a, b) != 0 ==>
      exists i :: 0 <= i < |a| && i < |b| && a[..i] == b[..i] && a[i] != b[i] && FirstDifference(a, b) == a[i] - b[i]
  {
    if a != [] && b != [] {
      if a[0] != b[0] {
        assert a[..0] == b[..0];
      } else if FirstDifference(a[1..], b[1..]) != 0 {
        FirstDifferenceDecided(a[1..], b[1..]);
        var i :| 0 <= i < |a[1..]| && i < |b[1..]| && a[1..][..i] == b[1..][..i] && a[1..][i] != b[1..][i]
                 && FirstDifference(a[1..], b[1..]) == a[1..][i] - b[1..][i];
        assert a[..i + 1] == [a[0]] + a[1..][..i];
        assert b[..i + 1] == [b[0]] + b[1..][..i];
      }
    }
  }

  lemma {:induction false} FirstDifferenceAt(a: seq<int>, b: seq<int>, i: nat)
    requires i < |a| && i < |b| && a[..i] == b[..i] && a[i] != b[i]
    ensures FirstDifference(a, b) == a[i] - b[i]
  {
    if i > 0 {
      assert a[0] == a[..i][0] && b[0] == b[..i][0];
      assert a[1..][..i - 1] == a[1..i] == b[1..i] == b[1..][..i - 1];
      FirstDifferenceAt(a[1..], b[1..], i - 1);
    }
  }

  lemma {:induction false} FirstDifferenceTransitive(a: seq<int>, b: seq<int>, c: seq<int>)
    requires |a| == |b| == |c|
    requires FirstDifference(a, b) <= 0 && FirstDifference(b, c) <= 0
    ensures FirstDifference(a, c) <= 0
  {
    if a != [] {
      if a[0] == b[0] && b[0] == c[0] {
        FirstDifferenceTransitive(a[1..], b[1..], c[1..]);
      }
    }
  }

  /** `compare(a, b) == -compare(b, a)`. */
  lemma CompareAntisymmetric(types: seq<ArgType>, x: InternalCommandInfo, y: InternalCommandInfo)
    ensures Compare(types, x, y) == -Compare(types, y, x)
  {
    FirstDifferenceAntisymmetric(PriorityKey(types, x), PriorityKey(types, y));
  }

  /** The comparison is 0 exactly when no zipped position has different type indices. */
  lemma CompareZero(types: seq<ArgType>, x: InternalCommandInfo, y: InternalCommandInfo)
    ensures var px, py := x.commandInfo.parameters, y.commandInfo.parameters;
            Compare(types, x, y) == 0 <==>
              forall i :: 0 <= i < |px| && i < |py| ==>
                IndexOf(types, px[i].paramType) == IndexOf(types, py[i].paramType)
  {
    var kx, ky := PriorityKey(types, x), PriorityKey(types, y);
    FirstDifferenceZero(kx, ky);
    assert forall i :: 0 <= i < |kx| ==> kx[i] == IndexOf(types, x.commandInfo.parameters[i].paramType);
    assert forall i :: 0 <= i < |ky| ==> ky[i] == IndexOf(types, y.commandInfo.parameters[i].paramType);
  }

  /** The first position whose type indices differ decides: the lower index sorts first. */
  lemma CompareDecidedAt(types: seq<ArgType>, x: InternalCommandInfo, y: InternalCommandInfo, i: nat)
    requires var px, py := x.commandInfo.parameters, y.commandInfo.parameters;
             && i < |px| && i < |py|
             && (forall j :: 0 <= j < i ==> IndexOf(types, px[j].paramType) == IndexOf(types, py[j].paramType))
             && IndexOf(types, px[i].paramType) != IndexOf(types, py[i].paramType)
    ensures var px, py := x.commandInfo.parameters, y.commandInfo.parameters;
            Compare(types, x, y) == IndexOf(types, px[i].paramType) - IndexOf(types, py[i].paramType)
  {
    var kx, ky := PriorityKey(types, x), PriorityKey(types, y);
    assert kx[..i] == ky[..i];
    FirstDifferenceAt(kx, ky, i);
  }

  /** Among infos of one arity, "sorts no later than" is transitive. */
  lemma CompareTransitive(types: seq<ArgType>, x: InternalCommandInfo, y: InternalCommandInfo, z: InternalCommandInfo)
    requires |x.commandInfo.parameters| == |y.commandInfo.parameters| == |z.commandInfo.parameters|
    requires Compare(types, x, y) <= 0 && Compare(types, y, z) <= 0
    ensures Compare(types, x, z) <= 0
  {
    FirstDifferenceTransitive(PriorityKey(types, x), PriorityKey(types, y), PriorityKey(types, z));
  }

  /** Infos whose types all have parsers have equal keys exactly when their type lists are equal. */
  lemma PriorityKeyInjective(types: seq<ArgType>, x: InternalCommandInfo, y: InternalCommandInfo)
    requires forall i :: 0 <= i < |x.commandInfo.parameters| ==> x.commandInfo.parameters[i].paramType in types
    requires |x.commandInfo.parameters| == |y.commandInfo.parameters|
    requires PriorityKey(types, x) == PriorityKey(types, y)
    ensures forall i :: 0 <= i < |x.commandInfo.parameters| ==>
              x.commandInfo.parameters[i].paramType == y.commandInfo.parameters[i].paramType
  {
    var px, py := x.commandInfo.parameters, y.commandInfo.parameters;
    forall i | 0 <= i < |px|
      ensures px[i].paramType == py[i].paramType
    {
      assert PriorityKey(types, x)[i] == IndexOf(types, px[i].paramType);
      assert PriorityKey(types, y)[i] == IndexOf(types, py[i].paramType);
    }
  }

  // ---------------------------------------------------------------------------
  // Stable sort

  predicate SameArity(s: seq<InternalCommandInfo>, k: nat) {
    forall i :: 0 <= i < |s| ==> |s[i].commandInfo.parameters| == k
  }

  predicate SortedBy(types: seq<ArgType>, s: seq<InternalCommandInfo>) {
    forall i, j :: 0 <= i < j < |s| ==> Compare(types, s[i], s[j]) <= 0
  }

  /** The elements of `s` with priority key `key`, in their order in `s`. */
  function WithKey(types: seq<ArgType>, s: seq<InternalCommandInfo>, key: seq<int>): seq<InternalCommandInfo> {
    if s == [] then []
    else (if PriorityKey(types, s[0]) == key then [s[0]] else []) + WithKey(types, s[1..], key)
  }

  /** Where `x` goes in the sorted `s`: before the first element it does not sort after. */
  function InsertionPoint(types: seq<ArgType>, x: InternalCommandInfo, s: seq<InternalCommandInfo>): (k: nat)
    ensures k <= |s|
    ensures forall i :: 0 <= i < k ==> Compare(types, x, s[i]) > 0
    ensures k < |s| ==> Compare(types, x, s[k]) <= 0
  {
    if s == [] || Compare(types, x, s[0]) <= 0 then 0
    else 1 + InsertionPoint(types, x, s[1..])
  }

  function Insert(types: seq<ArgType>, x: InternalCommandInfo, s: seq<InternalCommandInfo>): seq<InternalCommandInfo> {
    var k := InsertionPoint(types, x, s);
    s[..k] + [x] + s[k..]
  }

  /** `sortedWith(CommandInfoComparator(types))`, which is a stable sort; it rearranges its input and drops nothing. */
  function SortedWith(types: seq<ArgType>, s: seq<InternalCommandInfo>): (r: seq<InternalCommandInfo>)
    ensures multiset(r) == multiset(s)
  {
    if s == [] then []
    else
      var rest := SortedWith(types, s[1..]);
      InsertPermutes(types, s[0], rest);
      assert s == [s[0]] + s[1..];
      Insert(types, s[0], rest)
  }

  lemma InsertPermutes(types: seq<ArgType>, x: InternalCommandInfo, s: seq<InternalCommandInfo>)
    ensures multiset(Insert(types, x, s)) == multiset{x} + multiset(s)
  {
    var k := InsertionPoint(types, x, s);
    assert s == s[..k] + s[k..];
    SplicePermutes(s[..k], x, s[k..]);
  }

  lemma SplicePermutes<T>(before: seq<T>, x: T, after: seq<T>)
    ensures multiset(before + [x] + after) == multiset{x} + multiset(before + after)
  {
    assert multiset(before + after) == multiset(before) + multiset(after);
  }

  lemma InsertSorted(types: seq<ArgType>, x: InternalCommandInfo, s: seq<InternalCommandInfo>, n: nat)
    requires SameArity(s, n) && |x.commandInfo.parameters| == n
    requires SortedBy(types, s)
    ensures SortedBy(types, Insert(types, x, s))
  {
    var k := InsertionPoint(types, x, s);
    var r := Insert(types, x, s);
    assert |r| == |s| + 1;
    assert forall i :: 0 <= i < k ==> r[i] == s[i];
    assert r[k] == x;
    assert forall i :: k < i < |r| ==> r[i] == s[i - 1];
    forall i, j | 0 <= i < j < |r|
      ensures Compare(types, r[i], r[j]) <= 0
    {
      if j < k || k < i {
      } else if i < k && j == k {
        CompareAntisymmetric(types, x, s[i]);
      } else if i < k {
        assert k < j;
      } else {
        assert i == k && k < j && k < |s|;
        if j - 1 > k {
          CompareTransitive(types, x, s[k], s[j - 1]);
        }
      }
    }
  }

  lemma {:induction false} SortedWithSorted(types: seq<ArgType>, s: seq<InternalCommandInfo>, n: nat)
    requires SameArity(s, n)
    ensures SortedBy(types, SortedWith(types, s))
  {
    if s != [] {
      SortedWithSorted(types, s[1..], n);
      var rest := SortedWith(types, s[1..]);
      forall i | 0 <= i < |rest|
        ensures |rest[i].commandInfo.parameters| == n
      {
        assert rest[i] in multiset(s[1..]);
      }
      InsertSorted(types, s[0], rest, n);
    }
  }

  lemma {:induction false} WithKeyAppend(types: seq<ArgType>, a: seq<InternalCommandInfo>, b: seq<InternalCommandInfo>, key: seq<int>)
    ensures WithKey(types, a + b, key) == WithKey(types, a, key) + WithKey(types, b, key)
  {
    if a == [] {
      assert a + b == b;
    } else {
      assert (a + b)[0] == a[0] && (a + b)[1..] == a[1..] + b;
      WithKeyAppend(types, a[1..], b, key);
      var head := if PriorityKey(types, a[0]) == key then [a[0]] else [];
      var x, y := WithKey(types, a[1..], key), WithKey(types, b, key);
      assert WithKey(types, a + b, key) == head + (x + y);
      assert WithKey(types, a, key) == head + x;
      assert head + (x + y) == (head + x) + y;
    }
  }

  /** No element before the insertion point has the inserted element's key. */
  lemma {:induction false} NoEqualKeyBefore(types: seq<ArgType>, x: InternalCommandInfo, s: seq<InternalCommandInfo>, k: nat)
    requires k <= |s| && forall i :: 0 <= i < k ==> Compare(types, x, s[i]) > 0
    ensures WithKey(types, s[..k], PriorityKey(types, x)) == []
  {
    if k > 0 {
      var kx, k0 := PriorityKey(types, x), PriorityKey(types, s[0]);
      FirstDifferenceZero(kx, k0);
      assert s[..k][1..] == s[1..][..k - 1];
      NoEqualKeyBefore(types, x, s[1..], k - 1);
    }
  }

  lemma WithKeySingle(types: seq<ArgType>, x: InternalCommandInfo, key: seq<int>)
    ensures WithKey(types, [x], key) == if PriorityKey(types, x) == key then [x] else []
  {
    assert [x][1..] == [];
  }

  lemma WithKeySplice(types: seq<ArgType>, before: seq<InternalCommandInfo>, x: InternalCommandInfo, after: seq<InternalCommandInfo>, key: seq<int>)
    ensures WithKey(types, before + [x] + after, key) ==
            WithKey(types, before, key) + WithKey(types, [x], key) + WithKey(types, after, key)
  {
    WithKeyAppend(types, before + [x], after, key);
    WithKeyAppend(types, before, [x], key);
  }

  /** Putting `x` at position `k` adds it to its key's elements, in front when none before `k` shares its key. */
  lemma SpliceStable(types: seq<ArgType>, x: InternalCommandInfo, s: seq<InternalCommandInfo>, k: nat, key: seq<int>)
    requires k <= |s|
    requires PriorityKey(types, x) == key ==> WithKey(types, s[..k], key) == []
    ensures WithKey(types, s[..k] + [x] + s[k..], key) ==
            (if PriorityKey(types, x) == key then [x] else []) + WithKey(types, s, key)
  {
    WithKeySplice(types, s[..k], x, s[k..], key);
    assert s == s[..k] + s[k..];
    WithKeyAppend(types, s[..k], s[k..], key);
    WithKeySingle(types, x, key);
  }

  lemma InsertStable(types: seq<ArgType>, x: InternalCommandInfo, s: seq<InternalCommandInfo>, key: seq<int>)
    ensures WithKey(types, Insert(types, x, s), key) ==
            (if PriorityKey(types, x) == key then [x] else []) + WithKey(types, s, key)
  {
    var k := InsertionPoint(types, x, s);
    if PriorityKey(types, x) == key {
      NoEqualKeyBefore(types, x, s, k);
    }
    SpliceStable(types, x, s, k, key);
  }

  /** Stability: the infos with any one key keep their original relative order. */
  lemma {:induction false} SortedWithStable(types: seq<ArgType>, s: seq<InternalCommandInfo>, key: seq<int>)
    ensures WithKey(types, SortedWith(types, s), key) == WithKey(types, s, key)
  {
    if s != [] {
      SortedWithStable(types, s[1..], key);
      InsertStable(types, s[0], SortedWith(types, s[1..]), key);
    }
  }
}
