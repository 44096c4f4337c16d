// Values every part of the edge node shares: bytes, optional results, hexadecimal
// text as produced by hex::encode, and the collapse of repeats in a stream.
module Prelude {

  type Byte = x: int | 0 <= x < 256

  /** A millisecond clock value, or any other unsigned 64-bit quantity. */
  type U64 = x: int | 0 <= x < TWO_TO_THE_64

  const TWO_TO_THE_64: int := 0x1_0000_0000_0000_0000

  datatype Option<+T> = None | Some(value: T) {
    function GetOr(default: T): T {
      if Some? then value else default
    }
  }

  datatype Result<+T> = Ok(value: T) | Err(message: string) {
    function ToOption(): Option<T> {
      if Ok? then Some(value) else None
    }
  }

  /** A call that returns, fails with an error value, or panics. */
  datatype Outcome<+T> = Done(value: T) | Failed(message: string) | Panic

  function Min(a: int, b: int): int {
    if a <= b then a else b
  }

  function Zeros(n: nat): (z: seq<Byte>)
    ensures |z| == n
    ensures forall i :: 0 <= i < n ==> z[i] == 0
  {
    seq(n, _ => 0)
  }

  /** The wrapping subtraction of two u64 values in a release build. */
  function ElapsedMillis(now: U64, last: U64): (d: U64)
    ensures last <= now ==> d == now - last
  {
    (now - last) % TWO_TO_THE_64
  }

  /** The difference is the one 64-bit number that leads from the earlier reading to the
      later one, over the wrap-around if the clock went back. */
  lemma ElapsedLeadsToNow(now: U64, last: U64, d: U64)
    ensures d == ElapsedMillis(now, last) <==> (last + d) % TWO_TO_THE_64 == now
  {
  }

  /** Euclidean division has one answer. */
  lemma QuotientIsUnique(n: int, k: nat, q: int, r: nat)
    requires n == k * q + r && r < k
    ensures n / k == q && n % k == r
  {
    var d := n / k - q;
    assert k * d == k * (n / k) - k * q;
    assert k * d == r - n % k;
    assert d >= 1 ==> k * d >= k;
    assert d <= -1 ==> k * d <= 0 - k;
  }

  // ----- hexadecimal text -----

  function HexDigit(n: nat): char
    requires n < 16
  {
    "0123456789abcdef"[n]
  }

  function DigitValue(c: char): Option<nat> {
    if '0' <= c <= '9' then Some(c as int - '0' as int)
    else if 'a' <= c <= 'f' then Some(c as int - 'a' as int + 10)
    else if 'A' <= c <= 'F' then Some(c as int - 'A' as int + 10)
    else None
  }

  function Hex(data: seq<Byte>): (text: string)
    ensures |text| == 2 * |data|
  {
    if data == [] then "" else [HexDigit(data[0] / 16), HexDigit(data[0] % 16)] + Hex(data[1..])
  }

  function Unhex(text: string): Option<seq<Byte>> {
    if text == "" then Some([])
    else if |text| == 1 then None
    else
      match (DigitValue(text[0]), DigitValue(text[1]), Unhex(text[2..]))
      case (Some(high), Some(low), Some(rest)) =>
        var b := 16 * high + low;
        if b < 256 then Some([b as Byte] + rest) else None
      case _ => None
  }

  lemma DigitRoundTrip(n: nat)
    requires n < 16
    ensures DigitValue(HexDigit(n)) == Some(n)
  {
    if n < 10 {
      assert HexDigit(n) == ('0' as int + n) as char;
    } else {
      assert HexDigit(n) == ('a' as int + n - 10) as char;
    }
  }

  lemma {:induction false} UnhexHex(data: seq<Byte>)
    ensures Unhex(Hex(data)) == Some(data)
  {
    if data != [] {
      DigitRoundTrip(data[0] / 16);
      DigitRoundTrip(data[0] % 16);
      UnhexHex(data[1..]);
      assert Hex(data)[2..] == Hex(data[1..]);
      assert 16 * (data[0] / 16) + data[0] % 16 == data[0];
      assert [data[0]] + data[1..] == data;
    }
  }

  lemma {:induction false} HexIsLowerCase(data: seq<Byte>)
    ensures forall c :: c in Hex(data) ==> '0' <= c <= '9' || 'a' <= c <= 'f'
  {
    if data != [] {
      HexIsLowerCase(data[1..]);
      HexDigitIsLowerCase(data[0] / 16);
      HexDigitIsLowerCase(data[0] % 16);
    }
  }

  lemma HexDigitIsLowerCase(n: nat)
    requires n < 16
    ensures '0' <= HexDigit(n) <= '9' || 'a' <= HexDigit(n) <= 'f'
  {
    if n < 10 {
      assert HexDigit(n) == ('0' as int + n) as char;
    } else {
      assert HexDigit(n) == ('a' as int + n - 10) as char;
    }
  }

  /** Comparing the hexadecimal texts, as the code does, is comparing the bytes. */
  lemma HexIsInjective(a: seq<Byte>, b: seq<Byte>)
    ensures Hex(a) == Hex(b) <==> a == b
  {
    UnhexHex(a);
    UnhexHex(b);
  }

  // ----- streams with repeats collapsed -----

  function Last<T>(s: seq<T>): T
    requires s != []
  {
    s[|s| - 1]
  }

  function Front<T>(s: seq<T>): seq<T>
    requires s != []
  {
    s[..|s| - 1]
  }

  /** `s` with every run of equal neighbours reduced to one element. */
  function Collapse<T(==)>(s: seq<T>): (c: seq<T>)
    ensures s == [] <==> c == []
    ensures s != [] ==> Last(c) == Last(s)
    ensures forall i :: 0 < i < |c| ==> c[i - 1] != c[i]
  {
    if |s| <= 1 then s
    else if Last(Front(s)) == Last(s) then Collapse(Front(s))
    else Collapse(Front(s)) + [Last(s)]
  }

  lemma CollapseSnoc<T>(s: seq<T>, x: T)
    ensures Collapse(s + [x]) == if s != [] && Last(s) == x then Collapse(s) else Collapse(s) + [x]
  {
    assert Front(s + [x]) == s;
  }

  // ----- orders of a hash set -----

  /** `order` lists each member of the set once. */
  ghost predicate Enumerates<T(!new)>(order: seq<T>, members: set<T>) {
    && (forall x :: x in order <==> x in members)
    && (forall i, j :: 0 <= i < j < |order| ==> order[i] != order[j])
  }

  /** Visiting one more member of a set of which `pending` is still to be visited. */
  lemma OneMoreVisited<T(!new)>(order: seq<T>, x: T, all: set<T>, pending: set<T>)
    requires Enumerates(order, all - pending) && x in pending && pending <= all
    ensures Enumerates(order + [x], all - (pending - {x}))
  {
    forall i | 0 <= i < |order| ensures order[i] != x {
      assert order[i] in order;
    }
  }

  // ----- tables filled by insertion -----

  function InsertAll<K, V>(table: map<K, V>, pairs: seq<(K, V)>): map<K, V> {
    if pairs == [] then table else InsertAll(table, Front(pairs))[Last(pairs).0 := Last(pairs).1]
  }

  /** Inserting pair by pair is one update, so doing it again changes nothing. */
  lemma {:induction false} InsertAllIsOneUpdate<K, V>(table: map<K, V>, pairs: seq<(K, V)>)
    ensures InsertAll(table, pairs) == table + InsertAll(map[], pairs)
  {
    if pairs != [] {
      InsertAllIsOneUpdate(table, Front(pairs));
    }
  }

  /** The last pair of a key decides. */
  lemma {:induction false} InsertAllTakesTheLast<K, V>(table: map<K, V>, pairs: seq<(K, V)>, i: nat)
    requires i < |pairs| && forall j :: i < j < |pairs| ==> pairs[j].0 != pairs[i].0
    ensures pairs[i].0 in InsertAll(table, pairs) && InsertAll(table, pairs)[pairs[i].0] == pairs[i].1
  {
    if i < |pairs| - 1 {
      assert pairs[|pairs| - 1].0 != pairs[i].0;
      InsertAllTakesTheLast(table, Front(pairs), i);
    }
  }

  /** Keys without a pair keep what they had, or stay absent. */
  lemma {:induction false} InsertAllKeepsTheRest<K, V>(table: map<K, V>, pairs: seq<(K, V)>, key: K)
    requires forall i :: 0 <= i < |pairs| ==> pairs[i].0 != key
    ensures key in InsertAll(table, pairs) <==> key in table
    ensures key in table ==> InsertAll(table, pairs)[key] == table[key]
  {
    if pairs != [] {
      assert pairs[|pairs| - 1].0 != key;
      InsertAllKeepsTheRest(table, Front(pairs), key);
    }
  }
}
