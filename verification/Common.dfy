/** Small datatypes and map helpers shared by the modules. */
module Common {

  newtype byte = x: int | 0 <= x < 256

  type Bytes = seq<byte>

  datatype Option<+T> = None | Some(value: T)

  datatype Result<+T, +E> = Ok(value: T) | Err(error: E)

  function Get<K, V>(m: map<K, V>, k: K): Option<V> {
    if k in m then Some(m[k]) else None
  }

  function Set<K, V>(m: map<K, V>, k: K, v: Option<V>): map<K, V> {
    if v.Some? then m[k := v.value] else m - {k}
  }

  function Min(a: int, b: int): int {
    if a <= b then a else b
  }

  function Max(a: int, b: int): int {
    if a >= b then a else b
  }

  const PAGE: nat := 4096

  /** The next multiple of the 4096-byte page. */
  function PageAlign(n: nat): (r: nat)
    ensures n <= r < n + PAGE && r % PAGE == 0
  {
    (n + PAGE - 1) / PAGE * PAGE
  }

  const HEADER_LEN: nat := 24

  /** A frame's length on disk: header and payload, padded to eight bytes. */
  function FrameSize(payload: nat): (r: nat)
    ensures r % 8 == 0 && HEADER_LEN + payload <= r < HEADER_LEN + payload + 8
  {
    (HEADER_LEN + payload + 7) / 8 * 8
  }

  lemma MapsAgree<K, V>(a: map<K, V>, b: map<K, V>)
    requires forall k :: Get(a, k) == Get(b, k)
    ensures a == b
  {
    forall k
      ensures k in a <==> k in b
      ensures k in a ==> a[k] == b[k]
    {
      assert Get(a, k) == Get(b, k);
    }
    assert a.Keys == b.Keys;
  }

  /** The items of a map in some order. */
  method Enumerate<K(==), V>(m: map<K, V>) returns (items: seq<(K, V)>)
    ensures Lists(items, m)
  {
    var rest := m.Keys;
    items := [];
    while rest != {}
      invariant rest <= m.Keys
      invariant forall i :: 0 <= i < |items| ==> items[i].0 in m && items[i].0 !in rest && items[i].1 == m[items[i].0]
      invariant forall i, j :: 0 <= i < j < |items| ==> items[i].0 != items[j].0
      invariant forall k :: k in m && k !in rest ==> exists i :: 0 <= i < |items| && items[i].0 == k
    {
      var k :| k in rest;
      ghost var before := items;
      items := items + [(k, m[k])];
      rest := rest - {k};
      forall x | x in m && x !in rest
        ensures exists i :: 0 <= i < |items| && items[i].0 == x
      {
        if x == k {
          assert items[|before|].0 == k;
        } else {
          var i :| 0 <= i < |before| && before[i].0 == x;
          assert items[i].0 == x;
        }
      }
    }
  }

  /** `items` holds every item of `m` exactly once. */
  ghost predicate Lists<K, V>(items: seq<(K, V)>, m: map<K, V>) {
    && (forall i :: 0 <= i < |items| ==> items[i].0 in m && items[i].1 == m[items[i].0])
    && (forall i, j :: 0 <= i < j < |items| ==> items[i].0 != items[j].0)
    && (forall k :: k in m ==> exists i :: 0 <= i < |items| && items[i].0 == k)
  }
}
