/**
 * registry.go: a registry keeps one service per cleaned service path, all sharing one `Options`.
 */
module Registry {
  import opened Common
  import opened Paths
  import opened Services

  class Registry {
    const opts: Options
    var dict: map<string, Service>

    /** `New`: the given options, or fresh default ones when none are given; no service yet. */
    constructor (given: Options?)
      ensures given != null ==> opts == given
      ensures given == null ==> fresh(opts) && opts.route == map[] && opts.format == None && opts.filter == None
      ensures dict == map[]
      ensures Valid()
    {
      if given == null {
        opts := new Options();
      } else {
        opts := given;
      }
      dict := map[];
    }

    /** Every service is stored under its own prefix, cleaned once more, and shares the registry's options. */
    predicate Valid()
      reads this`dict, opts`format
    {
      forall k :: k in dict ==> dict[k].opts == opts && dict[k].prefix == CleanWith(opts.format, [k])
    }

    /** `Len`: the number of services. */
    function Len(): (n: nat)
      reads this`dict
      ensures n == |dict.Keys|
    {
      |dict|
    }

    /** `Get`: the service stored under the cleaned name, if any. */
    function Get(name: string): (r: Option<Service>)
      reads this`dict, opts`format
      ensures r.Some? <==> CleanWith(opts.format, [name]) in dict
      ensures r.Some? ==> r.value == dict[CleanWith(opts.format, [name])]
    {
      var prefix := CleanWith(opts.format, [name]);
      if prefix in dict then Some(dict[prefix]) else None
    }

    /** `Has`: whether a service is stored under the cleaned name. */
    predicate Has(name: string)
      reads this`dict, opts`format
    {
      CleanWith(opts.format, [name]) in dict
    }

    /**
     * `Service`: get or create. The service stored under the cleaned name is returned; when
     * there is none, a new one is created from that cleaned name and stored. Nothing else changes.
     */
    method Service(name: string) returns (srv: Services.Service)
      requires Valid()
      modifies this`dict
      ensures Valid()
      ensures var prefix := CleanWith(opts.format, [name]);
        prefix in dict && dict[prefix] == srv &&
        (prefix in old(dict) ==> srv == old(dict)[prefix] && dict == old(dict)) &&
        (prefix !in old(dict) ==>
          fresh(srv) && dict == old(dict)[prefix := srv] &&
          srv.opts == opts && srv.prefix == CleanWith(opts.format, [prefix]) &&
          srv.methods == map[] && srv.nodes == map[])
    {
      var prefix := CleanWith(opts.format, [name]);
      if prefix in dict {
        return dict[prefix];
      }
      srv := new Services.Service(prefix, opts);
      dict := dict[prefix := srv];
    }

    /**
     * `Match`: the entry the shared route table holds for the cleaned path. The table maps paths
     * to services, so that is what is returned.
     */
    function Match(path: string): (r: Option<Services.Service>)
      reads opts`format, opts`route
      ensures r.Some? <==> CleanWith(opts.format, [path]) in opts.route
      ensures r.Some? ==> r.value == opts.route[CleanWith(opts.format, [path])]
    {
      var key := CleanWith(opts.format, [path]);
      if key in opts.route then Some(opts.route[key]) else None
    }

    /** `Services`: every stored service once, in no particular order. */
    method Services() returns (r: seq<Services.Service>)
      ensures |r| == |dict|
      ensures forall i :: 0 <= i < |r| ==> r[i] in dict.Values
      ensures forall k :: k in dict ==> dict[k] in r
    {
      r := [];
      var left := dict.Keys;
      while left != {}
        invariant left <= dict.Keys
        invariant |r| + |left| == |dict|
        invariant forall i :: 0 <= i < |r| ==> r[i] in dict.Values
        invariant forall k :: k in dict && k !in left ==> dict[k] in r
        decreases |left|
      {
        var k :| k in left;
        r := r + [dict[k]];
        left := left - {k};
      }
    }
  }

  /** `Has` is `Get` succeeding. */
  lemma HasIsGet(r: Registry, name: string)
    ensures r.Has(name) == r.Get(name).Some?
  {
  }

  /** With the default folding, each service's prefix is the cleaned name it was asked for. */
  lemma GetPrefix(r: Registry, name: string)
    requires r.Valid() && r.opts.format == None && r.Has(name)
    ensures r.Get(name).value.prefix == CleanWith(None, [name])
  {
    CleanDefaultIdempotent([name]);
  }

  /** Names that clean alike address the same service. */
  lemma GetByCleanName(r: Registry, a: string, b: string)
    requires CleanWith(r.opts.format, [a]) == CleanWith(r.opts.format, [b])
    ensures r.Get(a) == r.Get(b)
  {
  }
}
