/** The dense byte-vector builders of `BasicFactory`: a vector is the
    `byte[]` array the factory allocates and fills. */
module BasicFactory {
  import opened JavaTypes
  import opened Exceptions

  /** `Arrays.fill(array, value)`: every entry of `a` becomes `value`. */
  method Fill(a: array<int8>, value: int8)
    modifies a
    ensures forall i :: 0 <= i < a.Length ==> a[i] == value
  {
    for i := 0 to a.Length
      invariant forall p :: 0 <= p < i ==> a[p] == value
    {
      a[i] := value;
    }
  }

  /** `createConstantVector(length, value)`: a vector of `length` entries,
      each equal to `value`; a negative length throws. */
  method CreateConstantVector(length: int32, value: int8) returns (r: Result<array<int8>>)
    ensures r.Failure? <==> length < 0
    ensures r.Failure? ==> r.error == NegativeArraySize
    ensures r.Success? ==> fresh(r.value)
    ensures r.Success? ==> r.value.Length == length as int
    ensures r.Success? ==> forall i :: 0 <= i < length as int ==> r.value[i] == value
  {
    if length < 0 {
      return Failure(NegativeArraySize);
    }
    var v := new int8[length as int](_ => 0);
    Fill(v, value);
    return Success(v);
  }

  /** `createRandomVector(length, random)`: entry `i` is the low byte of the
      `i`-th `nextInt()` drawn for this call, and exactly `length` values are
      drawn; a negative length throws before anything is drawn. */
  method CreateRandomVector(length: int32, random: RandomSource) returns (r: Result<array<int8>>)
    modifies random
    ensures r.Failure? <==> length < 0
    ensures r.Failure? ==> r.error == NegativeArraySize && random.drawn == old(random.drawn)
    ensures r.Success? ==> fresh(r.value)
    ensures r.Success? ==> r.value.Length == length as int
    ensures r.Success? ==> random.drawn == old(random.drawn) + length as int
    ensures r.Success? ==> forall i :: 0 <= i < length as int ==>
              r.value[i] == ByteCast(random.values(old(random.drawn) + i))
  {
    if length < 0 {
      return Failure(NegativeArraySize);
    }
    var v := new int8[length as int](_ => 0);
    for i := 0 to length as int
      invariant random.drawn == old(random.drawn) + i
      invariant forall p :: 0 <= p < i ==> v[p] == ByteCast(random.values(old(random.drawn) + p))
    {
      var x := random.NextInt();
      v[i] := ByteCast(x);
    }
    return Success(v);
  }
}
