/** The phone-number value type: a record around one string, validated when it is built,
    and the decoding of that string into one digit value per character. */
module PhoneNumbers {

  /** Number of digits of a phone number, and the depth of the digit tree. */
  const LENGTH: int := 9

  datatype Option<T> = None | Some(value: T)

  datatype Result<T, E> = Success(value: T) | Failure(error: E)

  /** The exception the record's constructor throws, with its message. */
  datatype IllegalArgumentException = IllegalArgumentException(message: string)

  /** The record. `Create` models its validating constructor; any value can be written as a
      Dafny datatype value, so the set operations require exactly nine ASCII digits. */
  datatype PhoneNumber = PhoneNumber(value: string)

  /** The characters the regular-expression class `[0-9]` matches. */
  predicate IsAsciiDigit(c: char)
  {
    '0' <= c <= '9'
  }

  /** `s` has a run of LENGTH ASCII digits starting at index `i`:
      the pattern `[0-9]{9}` matches there. */
  predicate DigitRunAt(s: string, i: int)
  {
    0 <= i && i + LENGTH <= |s| && forall k :: i <= k < i + LENGTH ==> IsAsciiDigit(s[k])
  }

  /** The pattern matches somewhere in `s`: what a successful `find()` reports. */
  ghost predicate HasDigitRun(s: string)
  {
    exists i :: DigitRunAt(s, i)
  }

  /** Exactly LENGTH ASCII digits: the only form the set operations are given. */
  predicate IsDigitString(s: string)
  {
    |s| == LENGTH && forall k :: 0 <= k < |s| ==> IsAsciiDigit(s[k])
  }

  /** A path through the digit tree for a whole phone number. */
  predicate IsKey(ds: seq<int>)
  {
    |ds| == LENGTH && forall k :: 0 <= k < |ds| ==> 0 <= ds[k] <= 9
  }

  /** The matcher's search: tries the start positions from `from` on, left to right,
      and yields the first one where the pattern matches. */
  function FindFrom(s: string, from: nat): (r: Option<nat>)
    ensures r.Some? ==> from <= r.value && DigitRunAt(s, r.value)
    ensures r.Some? ==> forall j :: from <= j < r.value ==> !DigitRunAt(s, j)
    ensures r.None? ==> forall j :: from <= j ==> !DigitRunAt(s, j)
    decreases |s| - from
  {
    if from + LENGTH > |s| then None
    else if DigitRunAt(s, from) then Some(from)
    else FindFrom(s, from + 1)
  }

  /** How Java renders a possibly-null string in a concatenation. */
  function Show(value: Option<string>): string
  {
    match value
    case None => "null"
    case Some(s) => s
  }

  /** The record's compact constructor: a null value, or one in which `[0-9]{9}` cannot be
      found, is rejected with an IllegalArgumentException; any other value is kept as it is. */
  function Create(value: Option<string>): (r: Result<PhoneNumber, IllegalArgumentException>)
    ensures r.Success? <==> value.Some? && HasDigitRun(value.value)
    ensures r.Success? ==> r.value.value == value.value
    ensures r.Failure? ==> r.error.message == "Invalid phone number value: " + Show(value)
  {
    if value.None? || FindFrom(value.value, 0).None? then
      Failure(IllegalArgumentException("Invalid phone number value: " + Show(value)))
    else
      Success(PhoneNumber(value.value))
  }

  /** `Character.getNumericValue` on the characters this model covers: an ASCII digit gives
      its face value, an ASCII letter gives 10 for `a`/`A` up to 35 for `z`/`Z`, and any other
      character gives -1. */
  function NumericValue(c: char): (v: int)
    ensures IsAsciiDigit(c) <==> 0 <= v <= 9
    ensures IsAsciiDigit(c) ==> v == c as int - '0' as int
    ensures !IsAsciiDigit(c) ==> v == -1 || 10 <= v <= 35
  {
    if '0' <= c <= '9' then c as int - '0' as int
    else if 'a' <= c <= 'z' then c as int - 'a' as int + 10
    else if 'A' <= c <= 'Z' then c as int - 'A' as int + 10
    else -1
  }

  /** `digits()`: the numeric value of each character of the value, in order. */
  function Digits(p: PhoneNumber): (ds: seq<int>)
    ensures |ds| == |p.value|
    ensures forall k :: 0 <= k < |ds| ==> ds[k] == NumericValue(p.value[k])
  {
    seq(|p.value|, k requires 0 <= k < |p.value| => NumericValue(p.value[k]))
  }

  /** The inverse of `Digits` on digit strings: each value 0..9 back to its ASCII digit. */
  function DigitString(ds: seq<int>): (s: string)
    requires IsKey(ds)
    ensures |s| == |ds|
    ensures forall k :: 0 <= k < |s| ==> s[k] as int == ds[k] + '0' as int
  {
    seq(|ds|, k requires 0 <= k < |ds| => ('0' as int + ds[k]) as char)
  }

  /** Every exactly-nine-digit value passes validation. */
  lemma DigitStringAccepted(s: string)
    requires IsDigitString(s)
    ensures Create(Some(s)) == Success(PhoneNumber(s))
  {
    assert DigitRunAt(s, 0);
  }

  /** A value shorter than LENGTH is always rejected. */
  lemma ShortValueRejected(s: string)
    requires |s| < LENGTH
    ensures Create(Some(s)).Failure?
  {
    forall i ensures !DigitRunAt(s, i) { }
  }

  /** Because validation uses `find()` and not `matches()`, a nine-digit run anywhere in a
      longer value is enough. */
  lemma EmbeddedRunAccepted(prefix: string, s: string, suffix: string)
    requires IsDigitString(s)
    ensures Create(Some(prefix + s + suffix)) == Success(PhoneNumber(prefix + s + suffix))
  {
    var v := prefix + s + suffix;
    forall k | |prefix| <= k < |prefix| + LENGTH ensures IsAsciiDigit(v[k]) {
      assert v[k] == s[k - |prefix|];
    }
    assert DigitRunAt(v, |prefix|);
  }

  /** The digits of an exactly-nine-digit value form a key, one path through the tree. */
  lemma DigitsAreKey(p: PhoneNumber)
    requires IsDigitString(p.value)
    ensures IsKey(Digits(p))
  {
  }

  /** Decoding loses nothing on digit strings: re-encoding the digits gives the value back. */
  lemma {:induction false} DigitsRoundTrip(p: PhoneNumber)
    requires IsDigitString(p.value)
    ensures IsKey(Digits(p)) && DigitString(Digits(p)) == p.value
  {
    var ds := Digits(p);
    var s := DigitString(ds);
    forall k | 0 <= k < |s| ensures s[k] == p.value[k] {
      assert s[k] as int == p.value[k] as int;
    }
  }

  /** Every key is the digits of exactly one nine-digit value. */
  lemma {:induction false} KeyRoundTrip(ds: seq<int>)
    requires IsKey(ds)
    ensures IsDigitString(DigitString(ds)) && Digits(PhoneNumber(DigitString(ds))) == ds
  {
    var s := DigitString(ds);
    forall k | 0 <= k < |s| ensures IsAsciiDigit(s[k]) && NumericValue(s[k]) == ds[k] { }
  }

  /** On nine-digit values `digits()` is injective: two phone numbers have the same digits
      exactly when they are the same record. */
  lemma DigitsInjective(p: PhoneNumber, q: PhoneNumber)
    requires IsDigitString(p.value) && IsDigitString(q.value)
    ensures Digits(p) == Digits(q) <==> p == q
  {
    if Digits(p) == Digits(q) {
      DigitsRoundTrip(p);
      DigitsRoundTrip(q);
    }
  }
}
