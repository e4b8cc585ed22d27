/**
 The in-memory store of memory.go: records filed under CIDR and namespace, replaced only
 when the writer's version is current. The map is keyed by the pair here; the lemmas on
 `KeyText` show that the text the store uses as its key identifies that pair.
 */
module Storage {
  import opened Wrappers
  import opened Cidr
  import opened Prefixes
  import opened Clients

  // ---- Key text

  function KeyText(cidr: string, namespace: string): string {
    cidr + "@" + namespace
  }

  predicate HasSuffix(s: string, suffix: string) {
    |suffix| <= |s| && s[|s| - |suffix|..] == suffix
  }

  function TrimSuffix(s: string, suffix: string): string {
    if HasSuffix(s, suffix) then s[..|s| - |suffix|] else s
  }

  /** The shorter of two tails after an `@` puts that `@` into the longer one. */
  lemma ShorterTail(a: string, x: string, b: string, y: string)
    requires a + "@" + x == b + "@" + y && |x| < |y|
    ensures '@' in y
  {
    var key := a + "@" + x;
    assert key[|a|] == '@' == (b + "@" + y)[|a|];
    assert y[|a| - |b| - 1] == '@';
  }

  /** With no `@` in namespaces, a key belongs to exactly the namespace it ends with. */
  lemma KeyNamesNamespace(cidr: string, namespace: string, other: string)
    requires '@' !in namespace && '@' !in other
    ensures HasSuffix(KeyText(cidr, namespace), "@" + other) <==> namespace == other
    ensures TrimSuffix(KeyText(cidr, namespace), "@" + namespace) == cidr
  {
    var key := KeyText(cidr, namespace);
    assert key[|cidr|..] == "@" + namespace;
    if HasSuffix(key, "@" + other) {
      var front := key[..|key| - |other| - 1];
      assert front + "@" + other == key;
      if |namespace| < |other| {
        ShorterTail(cidr, namespace, front, other);
      } else if |other| < |namespace| {
        ShorterTail(front, other, cidr, namespace);
      } else {
        assert key[|cidr| + 1..] == namespace && key[|front| + 1..] == other;
      }
    }
  }

  /** Different records have different keys. */
  lemma KeyIsInjective(cidr: string, namespace: string, cidr': string, namespace': string)
    requires '@' !in namespace && '@' !in namespace'
    ensures KeyText(cidr, namespace) == KeyText(cidr', namespace') <==> cidr == cidr' && namespace == namespace'
  {
    if KeyText(cidr, namespace) == KeyText(cidr', namespace') {
      KeyNamesNamespace(cidr, namespace, namespace);
      KeyNamesNamespace(cidr', namespace', namespace);
      KeyNamesNamespace(cidr', namespace', namespace');
    }
  }

  // ---- The store

  datatype Key = Key(cidr: Block, namespace: string)

  type Records = map<Key, Prefix>

  /** The prefixes of one namespace. */
  function View(records: Records, namespace: string): Store {
    map k | k in records && k.namespace == namespace :: k.cidr := records[k]
  }

  /** Nothing outside the namespace differs. */
  predicate OnlyIn(before: Records, after: Records, namespace: string) {
    && (forall k | k in before && k.namespace != namespace :: k in after && after[k] == before[k])
    && (forall k | k in after && k.namespace != namespace :: k in before)
  }

  class Memory {
    var prefixes: Records

    constructor ()
      ensures prefixes == map[]
    {
      prefixes := map[];
    }

    method CreatePrefix(prefix: Prefix, namespace: string) returns (r: Result<Prefix, Error>)
      modifies this
      ensures OnlyIn(old(prefixes), prefixes, namespace)
      ensures var before := old(View(prefixes, namespace));
              if prefix.cidr in before
              then r == Err(AlreadyCreated) && View(prefixes, namespace) == before
              else r == Ok(prefix) && View(prefixes, namespace) == before[prefix.cidr := prefix]
    {
      var key := Key(prefix.cidr, namespace);
      if key in prefixes {
        return Err(AlreadyCreated);
      }
      prefixes := prefixes[key := prefix];
      return Ok(prefix);
    }

    method ReadPrefix(cidr: Block, namespace: string) returns (r: Result<Prefix, Error>)
      ensures var view := View(prefixes, namespace);
              r == if cidr in view then Ok(view[cidr]) else Err(NotFound)
    {
      var key := Key(cidr, namespace);
      if key !in prefixes {
        return Err(NotFound);
      }
      return Ok(prefixes[key]);
    }

    method ReadAllPrefixCidrs(namespace: string) returns (cidrs: seq<Block>)
      ensures forall b: Block :: b in cidrs <==> b in View(prefixes, namespace)
      ensures forall i, j | 0 <= i < j < |cidrs| :: cidrs[i] != cidrs[j]
    {
      cidrs := [];
      var left := prefixes.Keys;
      while left != {}
        invariant left <= prefixes.Keys
        invariant forall b: Block :: b in cidrs <==> Key(b, namespace) in prefixes.Keys - left
        invariant forall i, j | 0 <= i < j < |cidrs| :: cidrs[i] != cidrs[j]
        decreases left
      {
        var key :| key in left;
        left := left - {key};
        if key.namespace == namespace {
          cidrs := cidrs + [key.cidr];
        }
      }
    }

    /** Replace a record if nobody has since the caller read it. */
    method UpdatePrefix(prefix: Prefix, namespace: string) returns (r: Result<Prefix, Error>)
      modifies this
      ensures OnlyIn(old(prefixes), prefixes, namespace)
      ensures var before := old(View(prefixes, namespace));
              if prefix.cidr !in before then r == Err(NotFound) && View(prefixes, namespace) == before
              else if before[prefix.cidr].version != prefix.version
              then r == Err(OptimisticLock) && View(prefixes, namespace) == before
              else r == Ok(Commit(prefix)) && View(prefixes, namespace) == before[prefix.cidr := Commit(prefix)]
    {
      var key := Key(prefix.cidr, namespace);
      if key !in prefixes {
        return Err(NotFound);
      }
      if prefixes[key].version != prefix.version {
        return Err(OptimisticLock);
      }
      prefixes := prefixes[key := Commit(prefix)];
      return Ok(Commit(prefix));
    }

    method DeletePrefix(prefix: Prefix, namespace: string) returns (r: Prefix)
      modifies this
      ensures r == prefix
      ensures OnlyIn(old(prefixes), prefixes, namespace)
      ensures View(prefixes, namespace) == old(View(prefixes, namespace)) - {prefix.cidr}
    {
      prefixes := prefixes - {Key(prefix.cidr, namespace)};
      r := prefix;
    }
  }
}
