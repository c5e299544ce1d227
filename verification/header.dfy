/** HTTP header maps as Go's `http.Header`: each key holds the list of its
    values in arrival order. Keys are taken to be in canonical form already,
    so `Get` and `Add` look keys up as given. */
module Header {

  type Headers = map<string, seq<string>>

  /** The values stored under `k`; a missing key has none. */
  function Values(h: Headers, k: string): seq<string>
  {
    if k in h then h[k] else []
  }

  /** `Header.Get`: the first value under `k`, or "" when there is none. */
  function Get(h: Headers, k: string): string
  {
    var vs := Values(h, k);
    if |vs| > 0 then vs[0] else ""
  }

  /** `Header.Add`: appends `v` to the values of `k`, creating the key
      when needed, and leaves every other key as it was. */
  function Add(h: Headers, k: string, v: string): (r: Headers)
    ensures r.Keys == h.Keys + {k}
    ensures Values(r, k) == Values(h, k) + [v]
    ensures forall k' :: k' != k ==> Values(r, k') == Values(h, k')
  {
    h[k := Values(h, k) + [v]]
  }

  /** Adds every value of `vs` under `k`, one `Add` per value, in order. */
  function AddAll(h: Headers, k: string, vs: seq<string>): (r: Headers)
    ensures r.Keys == if |vs| > 0 then h.Keys + {k} else h.Keys
    ensures Values(r, k) == Values(h, k) + vs
    ensures forall k' :: k' != k ==> Values(r, k') == Values(h, k')
    decreases |vs|
  {
    if |vs| == 0 then h
    else
      var r := AddAll(Add(h, k, vs[0]), k, vs[1..]);
      assert Values(h, k) + [vs[0]] + vs[1..] == Values(h, k) + vs;
      r
  }

  /** `Get` reads the first value ever stored under a key: adding more values
      changes the answer only when the key had none. */
  lemma GetAfterAddAll(h: Headers, k: string, vs: seq<string>)
    ensures Get(AddAll(h, k, vs), k)
            == if |Values(h, k)| > 0 then Get(h, k) else if |vs| > 0 then vs[0] else ""
  {
  }
}
