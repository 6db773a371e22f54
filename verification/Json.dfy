/** The tree of values that cJSON builds and prints. */
module Json {
  import opened Bytes

  datatype Value =
    | Null
    | False
    | True
    | Number(number: real)
    | String(text: bytes)
    | Array(items: seq<Value>)
    | Object(members: seq<Member>)

  datatype Member = Member(name: bytes, value: Value)

  const DBL_EPSILON: real := 1.0 / 4503599627370496.0

  function Abs(x: real): real { if x < 0.0 then -x else x }

  /** compare_double */
  predicate Close(a: real, b: real) {
    Abs(a - b) <= (if Abs(a) > Abs(b) then Abs(a) else Abs(b)) * DBL_EPSILON
  }

  /** Two integers are told apart exactly when both are below 2^52 in size, or far enough from each other. */
  lemma {:induction false} IntegersAreTold(a: int, b: int)
    ensures (-TWO_52 < a < TWO_52 && -TWO_52 < b < TWO_52) ==> (Close(a as real, b as real) <==> a == b)
    ensures a >= 0 ==> (Close(a as real, (a + 1) as real) <==> a + 1 >= TWO_52)
  {
    var x, y := a as real, b as real;
    var size := if Abs(x) > Abs(y) then Abs(x) else Abs(y);
    assert size * DBL_EPSILON == size / 4503599627370496.0;
    if a != b {
      assert Abs(x - y) >= 1.0;
    }
  }

  const TWO_52: int := 0x10_0000_0000_0000

  /** How many containers are nested: what the parser counts in `depth`. */
  function Depth(v: Value): nat
    decreases v, 1
  {
    match v
    case Array(items) => 1 + ItemsDepth(items)
    case Object(members) => 1 + MembersDepth(members)
    case _ => 0
  }

  function Max(a: nat, b: nat): nat { if a < b then b else a }

  function ItemsDepth(items: seq<Value>): nat
    decreases items, 0
  {
    if items == [] then 0 else Max(Depth(items[0]), ItemsDepth(items[1..]))
  }

  function MembersDepth(members: seq<Member>): nat
    decreases members, 0
  {
    if members == [] then 0 else Max(Depth(members[0].value), MembersDepth(members[1..]))
  }
}
