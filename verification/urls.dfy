/** The parts of a parsed URL the link builder touches, and the query-list
    update `URLSearchParams.set` performs (section 6.2 of the WHATWG URL
    Standard): the first pair with the name gets the new value, every later
    pair with that name is removed, and a new pair is appended when there was
    none. */
module Urls {
  import opened Outcomes

  datatype Param = Param(name: string, value: string)

  /** A URL after parsing; `query` is its list of name/value pairs in
      order. */
  datatype Url = Url(origin: string, path: string, query: seq<Param>, fragment: string)

  /** `searchParams.get(name)`: the value of the first pair with the name. */
  function Lookup(q: seq<Param>, name: string): Option<string>
  {
    if |q| == 0 then None
    else if q[0].name == name then Some(q[0].value)
    else Lookup(q[1..], name)
  }

  /** How many pairs carry the name. */
  function Count(q: seq<Param>, name: string): nat
  {
    if |q| == 0 then 0
    else (if q[0].name == name then 1 else 0) + Count(q[1..], name)
  }

  /** The pairs with any other name, in their order. */
  function Without(q: seq<Param>, name: string): seq<Param>
  {
    if |q| == 0 then []
    else (if q[0].name == name then [] else [q[0]]) + Without(q[1..], name)
  }

  lemma {:induction false} WithoutAbsent(q: seq<Param>, name: string)
    requires Count(q, name) == 0
    ensures Without(q, name) == q
  {
    if |q| > 0 {
      WithoutAbsent(q[1..], name);
    }
  }

  lemma {:induction false} WithoutHasNone(q: seq<Param>, name: string)
    ensures Count(Without(q, name), name) == 0
    ensures Lookup(Without(q, name), name) == None
  {
    if |q| > 0 {
      WithoutHasNone(q[1..], name);
      var head := if q[0].name == name then [] else [q[0]];
      var w := Without(q, name);
      assert w == head + Without(q[1..], name);
      if q[0].name != name {
        assert |w| > 0 && w[0] == q[0] && w[1..] == Without(q[1..], name);
        assert Count(w, name) == Count(w[1..], name);
        assert Lookup(w, name) == Lookup(w[1..], name);
      } else {
        assert w == Without(q[1..], name);
      }
    }
  }

  lemma {:induction false} WithoutIdempotent(q: seq<Param>, name: string)
    ensures Without(Without(q, name), name) == Without(q, name)
  {
    WithoutHasNone(q, name);
    WithoutAbsent(Without(q, name), name);
  }

  /** The list after appending one pair. */
  lemma {:induction false} AppendOne(q: seq<Param>, p: Param, name: string)
    ensures Count(q + [p], name) == Count(q, name) + (if p.name == name then 1 else 0)
    ensures Without(q + [p], name) == Without(q, name) + (if p.name == name then [] else [p])
    ensures Lookup(q + [p], name) == if Lookup(q, name).Some? then Lookup(q, name)
                                    else if p.name == name then Some(p.value) else None
  {
    if |q| > 0 {
      assert (q + [p])[1..] == q[1..] + [p];
      AppendOne(q[1..], p, name);
    }
  }

  /** A name occurs exactly when looking it up finds a value. */
  lemma {:induction false} LookupIffPresent(q: seq<Param>, name: string)
    ensures Lookup(q, name).Some? <==> Count(q, name) > 0
  {
    if |q| > 0 {
      LookupIffPresent(q[1..], name);
    }
  }

  /** The position of the first pair with the name. */
  function FirstIndex(q: seq<Param>, name: string): (i: nat)
    requires Count(q, name) > 0
    ensures i < |q| && q[i].name == name
    ensures forall j :: 0 <= j < i ==> q[j].name != name
  {
    if q[0].name == name then 0 else 1 + FirstIndex(q[1..], name)
  }

  /** Rewrites the first pair with the name where it stands and drops the
      later ones. */
  function ReplaceFirst(q: seq<Param>, name: string, value: string): (r: seq<Param>)
    requires Count(q, name) > 0
    ensures Count(r, name) == 1
    ensures Lookup(r, name) == Some(value)
    ensures Without(r, name) == Without(q, name)
    ensures |r| == |q| - Count(q, name) + 1
    ensures var i := FirstIndex(q, name);
            && i < |r|
            && r[..i] == q[..i]
            && r[i] == Param(name, value)
            && r[i + 1..] == Without(q[i + 1..], name)
  {
    if q[0].name == name then
      WithoutHasNone(q[1..], name);
      var rest := Without(q[1..], name);
      WithoutIdempotent(q[1..], name);
      CountPlusWithout(q[1..], name);
      assert ([Param(name, value)] + rest)[1..] == rest;
      [Param(name, value)] + rest
    else
      var tail := ReplaceFirst(q[1..], name, value);
      assert ([q[0]] + tail)[1..] == tail;
      ConsShiftsPosition(q, tail, FirstIndex(q[1..], name), Param(name, value), name);
      [q[0]] + tail
  }

  /** Putting `q[0]` back in front of a list that agrees with `q[1..]` up to
      position `j` moves that agreement one place along. */
  lemma ConsShiftsPosition(q: seq<Param>, tail: seq<Param>, j: nat, p: Param, name: string)
    requires |q| > 0 && j < |tail| && j < |q| - 1
    requires tail[..j] == q[1..][..j] && tail[j] == p
    requires tail[j + 1..] == Without(q[1..][j + 1..], name)
    ensures var r := [q[0]] + tail;
            && r[..j + 1] == q[..j + 1]
            && r[j + 1] == p
            && r[j + 2..] == Without(q[j + 2..], name)
  {
    var r := [q[0]] + tail;
    assert r[..j + 1] == [q[0]] + tail[..j];
    assert q[..j + 1] == [q[0]] + q[1..][..j];
    assert r[j + 2..] == tail[j + 1..];
    assert q[j + 2..] == q[1..][j + 1..];
  }

  /** Every pair either carries the name or survives in `Without`. */
  lemma {:induction false} CountPlusWithout(q: seq<Param>, name: string)
    ensures Count(q, name) + |Without(q, name)| == |q|
  {
    if |q| > 0 {
      CountPlusWithout(q[1..], name);
    }
  }

  /** `searchParams.set(name, value)`: the first pair with the name is
      rewritten in place and the later ones removed; with none, the pair is
      appended. */
  function SetParam(q: seq<Param>, name: string, value: string): (r: seq<Param>)
    ensures Lookup(r, name) == Some(value)
    ensures Count(r, name) == 1
    ensures Without(r, name) == Without(q, name)
    ensures Count(q, name) == 0 ==> r == q + [Param(name, value)]
    ensures Count(q, name) > 0 ==>
              var i := FirstIndex(q, name);
              && i < |r|
              && r[..i] == q[..i]
              && r[i] == Param(name, value)
              && r[i + 1..] == Without(q[i + 1..], name)
  {
    if Count(q, name) == 0 then
      AppendOne(q, Param(name, value), name);
      LookupIffPresent(q, name);
      q + [Param(name, value)]
    else
      ReplaceFirst(q, name, value)
  }

  /** A list already holding the name once, with that value, is left as it
      is by `set`. */
  lemma {:induction false} SetParamFixed(q: seq<Param>, name: string, value: string)
    requires Count(q, name) == 1 && Lookup(q, name) == Some(value)
    ensures SetParam(q, name, value) == q
  {
    ReplaceFirstFixed(q, name, value);
  }

  lemma {:induction false} ReplaceFirstFixed(q: seq<Param>, name: string, value: string)
    requires Count(q, name) == 1 && Lookup(q, name) == Some(value)
    ensures ReplaceFirst(q, name, value) == q
  {
    if q[0].name == name {
      WithoutAbsent(q[1..], name);
      assert q == [Param(name, value)] + q[1..];
    } else {
      ReplaceFirstFixed(q[1..], name, value);
    }
  }

  /** Setting the same parameter twice is setting it once. */
  lemma SetParamIdempotent(q: seq<Param>, name: string, value: string)
    ensures SetParam(SetParam(q, name, value), name, value) == SetParam(q, name, value)
  {
    SetParamFixed(SetParam(q, name, value), name, value);
  }
}
