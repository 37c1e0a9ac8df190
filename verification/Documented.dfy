/**
 The worked examples of the format description, byte for byte.
 */
module Documented {
  import opened Words
  import opened Gobber
  import opened Wire
  import opened Arrays
  import opened Schema

  lemma {:induction false} NumberExamples()
    ensures EncU(0) == [0x00] && EncU(7) == [0x07] && EncU(256) == [0xFE, 0x01, 0x00]
    ensures EncScalar(U(10)) == [6, 10] && EncScalar(U(256)) == [6, 0xFE, 1, 0]
    ensures EncScalar(I(10)) == [4, 20] && EncScalar(I(-10)) == [4, 19]
  {
    assert BigEndian(1, 1) == [1] && BigEndian(2, 256) == [1, 0];
  }

  /** The byte array 'hei'. */
  lemma {:induction false} VectorExample()
    ensures EncVector([104, 101, 105]) == [10, 3, 104, 101, 105]
  {
  }

  lemma {:induction false} ArrayExample()
    ensures EncArrayStart(GLME_INT, 3) + EncScalars([I(1), I(2), I(3)]) == [20, 4, 3, 2, 4, 6]
  {
    var es := [I(1), I(2), I(3)];
    assert es[1..] == [I(2), I(3)] && es[1..][1..] == [I(3)] && es[1..][1..][1..] == [];
    assert EncScalars([I(3)]) == [6];
    assert EncScalars([I(2), I(3)]) == [4, 6];
  }

  const TWO_INTS: Layout := [Single(I(0)), Single(I(0))]

  /** Both fields sent, and the first one omitted. */
  lemma {:induction false} StructExamples()
    ensures var env: Env := map[32 := StructType(0, TWO_INTS)];
            && Fits(env, Fields(env, 32), [SingleVal(I(1)), SingleVal(I(2))])
            && EncStruct(env, 32, [SingleVal(I(1)), SingleVal(I(2))]) == [64, 1, 4, 2, 1, 4, 4, 0]
            && Fits(env, Fields(env, 32), [SingleVal(I(0)), SingleVal(I(2))])
            && EncStruct(env, 32, [SingleVal(I(0)), SingleVal(I(2))]) == [64, 2, 4, 4, 0]
  {
    var env: Env := map[32 := StructType(0, TWO_INTS)];
    var k := Single(I(0));
    var v := SingleVal(I(2));
    assert Fields(env, 32) == TWO_INTS && TWO_INTS[1..] == [k] && [k][1..] == [];
    assert [v][1..] == [] && [SingleVal(I(1)), v][1..] == [v] && [SingleVal(I(0)), v][1..] == [v];
    assert Fits(env, [], []);
    assert Fits(env, [k], [v]);
    assert EncFields(env, [], [], 1) == [0];
    assert EncFields(env, [k], [v], 1) == [1, 4, 4, 0];
    assert EncFields(env, [k], [v], 2) == [2, 4, 4, 0];
  }
}
