/** `SetOptions`: folding the per-call options of a request into its
    parameter set. An option carries either one value or a list of values;
    options are applied left to right, so the last one naming a key wins. */
module CallOptions {
  import opened Wrappers
  import opened URLParams

  /** A call option: a single-valued one or a multi-valued one. */
  datatype CallOption =
    | Single(name: string, value: string)
    | Multi(name: string, values: seq<string>)

  /** The values an option stores under its name. */
  function StoredValues(o: CallOption): seq<string>
  {
    match o
    case Single(_, v) => [v]
    case Multi(_, vs) => vs
  }

  /** The names the options mention. */
  function Names(opts: seq<CallOption>): set<string>
  {
    set i | 0 <= i < |opts| :: opts[i].name
  }

  /** The last option in `opts` that names `key`, if any. */
  function LastFor(opts: seq<CallOption>, key: string): (r: Option<CallOption>)
    ensures r.Some? ==> r.value in opts && r.value.name == key
    ensures r.None? <==> key !in Names(opts)
  {
    if |opts| == 0 then None
    else if opts[|opts| - 1].name == key then Some(opts[|opts| - 1])
    else
      assert Names(opts) == Names(opts[..|opts| - 1]) + {opts[|opts| - 1].name};
      LastFor(opts[..|opts| - 1], key)
  }

  /** The option `LastFor` finds is the last one naming `key`: no later
      option names it. */
  lemma {:induction false} LastForIsLast(opts: seq<CallOption>, key: string)
    ensures LastFor(opts, key).Some? ==>
              exists i | 0 <= i < |opts| ::
                && opts[i] == LastFor(opts, key).value
                && forall j | i < j < |opts| :: opts[j].name != key
    decreases |opts|
  {
    if |opts| > 0 && opts[|opts| - 1].name != key {
      var init := opts[..|opts| - 1];
      LastForIsLast(init, key);
      if LastFor(init, key).Some? {
        var i :| 0 <= i < |init| && init[i] == LastFor(init, key).value
                 && forall j | i < j < |init| :: init[j].name != key;
        assert opts[i] == LastFor(opts, key).value;
      }
    }
  }

  /** What the entry of `key` should be after applying `opts` to `u`. */
  function Expected(u: Params, opts: seq<CallOption>, key: string): Option<seq<string>>
  {
    match LastFor(opts, key)
    case Some(o) => Some(StoredValues(o))
    case None => Lookup(u, key)
  }

  /** Applies one option: a multi-valued option acts as `SetMulti`, any
      other as `Set`. */
  function ApplyOption(u: Params, o: CallOption): (r: Params)
    ensures Lookup(r, o.name) == Some(StoredValues(o))
    ensures forall k | k != o.name :: Lookup(r, k) == Lookup(u, k)
  {
    match o
    case Multi(name, values) => SetMulti(u, name, values)
    case Single(name, value) => Set(u, name, value)
  }

  /** Applies `opts` in order. Each key ends with the values of the last
      option naming it; a key named by no option keeps its entry. */
  method SetOptions(u: Params, opts: seq<CallOption>) returns (r: Params)
    ensures forall k :: Lookup(r, k) == Expected(u, opts, k)
    ensures r.Keys == u.Keys + Names(opts)
  {
    r := u;
    for i := 0 to |opts|
      invariant forall k :: Lookup(r, k) == Expected(u, opts[..i], k)
    {
      assert opts[..i + 1][..i] == opts[..i];
      r := ApplyOption(r, opts[i]);
    }
    assert opts[..|opts|] == opts;
    forall k
      ensures k in r <==> k in u || k in Names(opts)
    {
      assert Lookup(r, k) == Expected(u, opts, k);
    }
  }
}
