/** The behaviours the set's specification exercises, each run on a new set and stated as
    the results the calls return. */
module SetScenarios {
  import opened PhoneNumbers
  import opened DigitTree

  /** A new set has size 0. */
  method EmptySetHasSizeZero() returns (size: int)
    ensures size == 0
  {
    var numberSet := new TreePhoneNumberMutableSet();
    size := numberSet.Size();
  }

  /** After adding `p`, `p` is present, a different number `q` is not, and the size is 1. */
  method AddThenContains(p: PhoneNumber, q: PhoneNumber) returns (hasP: bool, hasQ: bool, size: int)
    requires IsDigitString(p.value) && IsDigitString(q.value) && p != q
    ensures hasP && !hasQ && size == 1
  {
    var numberSet := new TreePhoneNumberMutableSet();
    numberSet.Add(p);
    hasP := numberSet.Contains(p);
    DigitsInjective(p, q);
    hasQ := numberSet.Contains(q);
    size := numberSet.Size();
  }

  /** Adding the same number twice leaves it present once. */
  method AddTwice(p: PhoneNumber) returns (hasP: bool, size: int)
    requires IsDigitString(p.value)
    ensures hasP && size == 1
  {
    var numberSet := new TreePhoneNumberMutableSet();
    numberSet.Add(p);
    numberSet.Add(p);
    hasP := numberSet.Contains(p);
    size := numberSet.Size();
  }

  /** Two different numbers give size 2. */
  method AddDifferent(p: PhoneNumber, q: PhoneNumber) returns (size: int)
    requires IsDigitString(p.value) && IsDigitString(q.value) && p != q
    ensures size == 2
  {
    var numberSet := new TreePhoneNumberMutableSet();
    numberSet.Add(p);
    numberSet.Add(q);
    DigitsInjective(p, q);
    size := numberSet.Size();
  }

  /** The digit sequences of the numbers in a list. */
  ghost function KeysOf(numbers: seq<PhoneNumber>): set<seq<int>>
  {
    set p | p in numbers :: Digits(p)
  }

  /** Adding a list of numbers, duplicates included, one after the other: every number is
      then present and the size is the number of distinct numbers in the list. */
  method AddAll(numbers: seq<PhoneNumber>) returns (numberSet: TreePhoneNumberMutableSet, size: int)
    requires forall k :: 0 <= k < |numbers| ==> IsDigitString(numbers[k].value)
    ensures numberSet.Valid() && numberSet.Contents == KeysOf(numbers)
    ensures size == |set p | p in numbers|
  {
    numberSet := new TreePhoneNumberMutableSet();
    for i := 0 to |numbers|
      invariant numberSet.Valid() && fresh(numberSet.Repr)
      invariant numberSet.Contents == KeysOf(numbers[..i])
    {
      KeysOfSnoc(numbers, i);
      numberSet.Add(numbers[i]);
    }
    assert numbers[..|numbers|] == numbers;
    DistinctKeys(numbers);
    size := numberSet.Size();
  }

  /** One more number in the list adds its digits to the keys. */
  lemma KeysOfSnoc(numbers: seq<PhoneNumber>, i: int)
    requires 0 <= i < |numbers|
    ensures KeysOf(numbers[..i + 1]) == KeysOf(numbers[..i]) + {Digits(numbers[i])}
  {
    assert numbers[..i + 1] == numbers[..i] + [numbers[i]];
  }

  /** A list holds as many distinct keys as distinct numbers. */
  lemma DistinctKeys(numbers: seq<PhoneNumber>)
    requires forall k :: 0 <= k < |numbers| ==> IsDigitString(numbers[k].value)
    ensures |KeysOf(numbers)| == |set p | p in numbers|
  {
    var ps := set p | p in numbers;
    DistinctDigits(ps);
    assert KeysOf(numbers) == set p | p in ps :: Digits(p);
  }

  /** Distinct nine-digit numbers have distinct digits, so a set of numbers and the set of
      their digit sequences have the same size. */
  lemma {:induction false} DistinctDigits(ps: set<PhoneNumber>)
    requires forall p :: p in ps ==> IsDigitString(p.value)
    ensures |set p | p in ps :: Digits(p)| == |ps|
    decreases |ps|
  {
    if ps != {} {
      var x :| x in ps;
      var rest := ps - {x};
      DistinctDigits(rest);
      assert (set p | p in ps :: Digits(p)) == (set p | p in rest :: Digits(p)) + {Digits(x)};
      forall p | p in rest ensures Digits(p) != Digits(x) {
        DigitsInjective(p, x);
      }
    }
  }
}
