/** The header work of `rootHandler`: every value of every request header
    with a non-empty key is added to the response headers, then a `Version`
    header carries the `version` setting when that is non-empty.

    Go ranges over the request's header map in an unspecified order, so the
    copy takes that order as a parameter; `CopyFollowsReference` shows the
    result does not depend on it. */
module RootHandler {
  import opened Header

  const VersionKey: string := "Version"

  /** Keys listed once each, and exactly the keys of the set. */
  ghost predicate Enumerates(order: seq<string>, keys: set<string>)
  {
    && (forall i, j :: 0 <= i < j < |order| ==> order[i] != order[j])
    && (forall k :: k in order <==> k in keys)
  }

  /** One turn of the outer loop: the values of one request key. */
  function CopyKey(resp: Headers, k: string, vs: seq<string>): Headers
  {
    if |k| > 0 then AddAll(resp, k, vs) else resp
  }

  /** The copy loop, visiting the request keys in `order`. */
  function CopyHeaders(req: Headers, order: seq<string>, resp: Headers): Headers
    decreases |order|
  {
    if |order| == 0 then resp
    else CopyHeaders(req, order[1..], CopyKey(resp, order[0], Values(req, order[0])))
  }

  /** What the copy contributes under `k` once the keys in `keys` are done. */
  function Contributed(req: Headers, keys: set<string>, k: string): seq<string>
  {
    if k in keys && |k| > 0 then Values(req, k) else []
  }

  /** Reference result, free of any visiting order: each key keeps its old
      values followed by the request's values for it. */
  function Reflected(req: Headers, keys: set<string>, resp: Headers): Headers
  {
    map k | k in resp.Keys + keys && (k in resp || |Contributed(req, keys, k)| > 0)
      :: Values(resp, k) + Contributed(req, keys, k)
  }

  /** The `Version` step: adds `version` under `Version` when non-empty. */
  function WithVersion(h: Headers, version: string): Headers
  {
    if |version| > 0 then Add(h, VersionKey, version) else h
  }

  /** The response headers after `rootHandler`. */
  function RootHandlerHeaders(req: Headers, order: seq<string>, resp: Headers,
                              version: string): Headers
  {
    WithVersion(CopyHeaders(req, order, resp), version)
  }

  lemma ReflectedNothing(req: Headers, resp: Headers)
    ensures Reflected(req, {}, resp) == resp
  {
    var r := Reflected(req, {}, resp);
    forall k | k in resp
      ensures r[k] == resp[k]
    {
      assert Contributed(req, {}, k) == [];
      assert resp[k] + [] == resp[k];
    }
    assert r.Keys == resp.Keys;
  }

  /** Reading the reference result under one key. */
  lemma ValuesReflected(req: Headers, keys: set<string>, resp: Headers, k: string)
    ensures Values(Reflected(req, keys, resp), k) == Values(resp, k) + Contributed(req, keys, k)
  {
  }

  /** Handling one more key moves it from the pending keys to the done ones. */
  lemma ReflectedStep(req: Headers, keys: set<string>, k0: string, resp: Headers)
    requires k0 !in keys
    ensures Reflected(req, keys, CopyKey(resp, k0, Values(req, k0)))
            == Reflected(req, keys + {k0}, resp)
  {
    var resp' := CopyKey(resp, k0, Values(req, k0));
    var l := Reflected(req, keys, resp');
    var r := Reflected(req, keys + {k0}, resp);
    forall k
      ensures Values(resp', k) + Contributed(req, keys, k)
              == Values(resp, k) + Contributed(req, keys + {k0}, k)
      ensures (k in resp' || |Contributed(req, keys, k)| > 0)
              <==> (k in resp || |Contributed(req, keys + {k0}, k)| > 0)
    {
      if k == k0 {
        assert Contributed(req, keys, k) == [];
      }
    }
    assert l.Keys == r.Keys;
  }

  /** The copy loop, whatever order it visits the keys in, builds the
      reference result. */
  lemma {:induction false} CopyFollowsReference(req: Headers, order: seq<string>,
                                                keys: set<string>, resp: Headers)
    requires Enumerates(order, keys)
    ensures CopyHeaders(req, order, resp) == Reflected(req, keys, resp)
    decreases |order|
  {
    if |order| == 0 {
      assert keys == {};
      ReflectedNothing(req, resp);
    } else {
      var k0 := order[0];
      var rest := keys - {k0};
      assert Enumerates(order[1..], rest) by {
        forall k
          ensures k in order[1..] <==> k in rest
        {
          if k in order[1..] {
            var j :| 0 <= j < |order[1..]| && order[1..][j] == k;
            assert order[j + 1] == k;
          }
          if k in rest {
            var j :| 0 <= j < |order| && order[j] == k;
            assert j != 0;
            assert order[1..][j - 1] == k;
          }
        }
      }
      CopyFollowsReference(req, order[1..], rest, CopyKey(resp, k0, Values(req, k0)));
      ReflectedStep(req, rest, k0, resp);
      assert rest + {k0} == keys;
    }
  }

  /** Two visiting orders of the request's keys give the same response. */
  lemma OrderIrrelevant(req: Headers, order1: seq<string>, order2: seq<string>, resp: Headers)
    requires Enumerates(order1, req.Keys) && Enumerates(order2, req.Keys)
    ensures CopyHeaders(req, order1, resp) == CopyHeaders(req, order2, resp)
  {
    CopyFollowsReference(req, order1, req.Keys, resp);
    CopyFollowsReference(req, order2, req.Keys, resp);
  }

  /** After the copy, each request key with a non-empty name carries its
      old values followed by all the request's values in order; the empty
      key and keys absent from the request are untouched, and no key appears
      without a value to put under it. */
  lemma CopyReflectsEveryValue(req: Headers, order: seq<string>, resp: Headers)
    requires Enumerates(order, req.Keys)
    ensures forall k :: k in req && |k| > 0 ==>
              Values(CopyHeaders(req, order, resp), k) == Values(resp, k) + req[k]
    ensures Values(CopyHeaders(req, order, resp), "") == Values(resp, "")
    ensures forall k :: k !in req ==>
              Values(CopyHeaders(req, order, resp), k) == Values(resp, k)
    ensures CopyHeaders(req, order, resp).Keys
            == resp.Keys + (set k | k in req && |k| > 0 && |req[k]| > 0)
  {
    var out := CopyHeaders(req, order, resp);
    CopyFollowsReference(req, order, req.Keys, resp);
    forall k
      ensures Values(out, k) == Values(resp, k) + Contributed(req, req.Keys, k)
    {
      ValuesReflected(req, req.Keys, resp, k);
    }
    forall k | k in req && |k| > 0
      ensures Values(out, k) == Values(resp, k) + req[k]
    {
      assert Contributed(req, req.Keys, k) == req[k];
    }
    assert Values(out, "") == Values(resp, "") + [];
    forall k | k !in req
      ensures Values(out, k) == Values(resp, k)
    {
      assert Values(out, k) == Values(resp, k) + [];
    }
    var added := set k | k in req && |k| > 0 && |req[k]| > 0;
    forall k
      ensures k in out <==> k in resp.Keys + added
    {
      assert k in out <==> k in resp || |Contributed(req, req.Keys, k)| > 0;
    }
  }

  /** The `Version` step appends `version` under `Version` exactly when it is
      non-empty, and touches no other header. */
  lemma VersionAddedIffNonEmpty(h: Headers, version: string)
    ensures |Values(WithVersion(h, version), VersionKey)| == |Values(h, VersionKey)| + 1
            <==> |version| > 0
    ensures |version| > 0 ==>
              Values(WithVersion(h, version), VersionKey) == Values(h, VersionKey) + [version]
    ensures |version| == 0 ==> WithVersion(h, version) == h
    ensures forall k :: k != VersionKey ==> Values(WithVersion(h, version), k) == Values(h, k)
    ensures WithVersion(h, version).Keys
            == h.Keys + (if |version| > 0 then {VersionKey} else {})
  {
  }

  /** Into an empty response, `rootHandler` puts exactly the request's
      headers with non-empty keys, plus the version when it is set. */
  lemma RootHandlerFromEmpty(req: Headers, order: seq<string>, version: string)
    requires Enumerates(order, req.Keys)
    ensures forall k :: |k| > 0 && k != VersionKey ==>
              Values(RootHandlerHeaders(req, order, map[], version), k) == Values(req, k)
    ensures Values(RootHandlerHeaders(req, order, map[], version), "") == []
    ensures Values(RootHandlerHeaders(req, order, map[], version), VersionKey)
            == Values(req, VersionKey) + (if |version| > 0 then [version] else [])
  {
    var copied := CopyHeaders(req, order, map[]);
    var out := WithVersion(copied, version);
    CopyReflectsEveryValue(req, order, map[]);
    VersionAddedIffNonEmpty(copied, version);
    forall k | |k| > 0 && k != VersionKey
      ensures Values(out, k) == Values(req, k)
    {
      assert Values(out, k) == Values(copied, k);
      if k in req {
        assert Values(copied, k) == [] + req[k];
      } else {
        assert Values(copied, k) == Values(map[], k);
      }
    }
    assert Values(copied, VersionKey) == Values(req, VersionKey) by {
      if VersionKey in req {
        assert Values(copied, VersionKey) == [] + req[VersionKey];
      }
    }
  }

  /** A `Version` header sent by the client is echoed even when the version
      setting is empty, so the response can carry `Version` without it. */
  lemma ClientVersionEchoed()
    ensures Values(RootHandlerHeaders(map[VersionKey := ["client"]], [VersionKey], map[], ""),
                   VersionKey) == ["client"]
  {
    RootHandlerFromEmpty(map[VersionKey := ["client"]], [VersionKey], "");
  }
}
