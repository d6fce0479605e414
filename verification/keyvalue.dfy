/**
 The replicated key-value store and the commands that change it
 (`Command` and `handle_command` in src/main.rs).
 */
module KeyValue {
  import opened Wrappers

  /** The store behind the lock: `HashMap<String, String>`. */
  type Store = map<string, string>

  datatype Command =
    | Put(key: string, value: string)
    | Get(key: string)
    | Del(key: string)

  /** `HashMap::get`. */
  function Lookup(store: Store, k: string): Option<string> {
    if k in store then Some(store[k]) else None
  }

  /** `handle_command`: `Put` inserts (overwriting), `Del` removes (a no-op
      when absent), `Get` does nothing because lookups are answered by the
      connection handler. Stated key by key: the command's key is bound to
      the new value or unbound, and every other key reads as before. */
  function Apply(store: Store, c: Command): (r: Store)
    ensures c.Put? ==> Lookup(r, c.key) == Some(c.value)
    ensures c.Del? ==> Lookup(r, c.key) == None
    ensures c.Get? ==> r == store
    ensures forall x :: x != c.key ==> Lookup(r, x) == Lookup(store, x)
  {
    match c
    case Put(k, v) => store[k := v]
    case Get(_) => store
    case Del(k) => store - {k}
  }

  /** Applying a command a second time changes nothing. This is what makes
      the event loop's replay of a handler's command harmless, as long as no
      other write to the same key comes in between. */
  lemma ApplyIdempotent(store: Store, c: Command)
    ensures Apply(Apply(store, c), c) == Apply(store, c)
  {
  }

  /** A later `Put` to the same key replaces the earlier one entirely. */
  lemma LastWriteWins(store: Store, k: string, v1: string, v2: string)
    ensures Apply(Apply(store, Put(k, v1)), Put(k, v2)) == Apply(store, Put(k, v2))
  {
  }

  /** Removing a key that is not bound leaves the store as it was. */
  lemma DelAbsent(store: Store, k: string)
    requires k !in store
    ensures store - {k} == store
  {
  }
}
