/**
 * The file system as the harvester sees it: a map from path to text. A path
 * is present when a file can be read there.
 */
module FileStore {

  type Store = map<string, string>

  /** What `writeFileIfChanged` reports, together with the file system after it. */
  datatype WriteOutcome = WriteOutcome(changed: bool, store: Store)

  /**
   * Writes `content` at `path` unless the file already holds exactly that
   * text. A missing or unreadable file is written.
   */
  function WriteIfChanged(store: Store, path: string, content: string): (r: WriteOutcome)
    ensures path in r.store && r.store[path] == content
    ensures r.store.Keys == store.Keys + {path}
    ensures forall p :: p in store && p != path ==> r.store[p] == store[p]
    ensures r.changed <==> !(path in store && store[path] == content)
    ensures !r.changed ==> r.store == store
  {
    if path in store && store[path] == content then
      WriteOutcome(false, store)
    else
      WriteOutcome(true, store[path := content])
  }

  /** Writing the same content twice: the second call reports no change and leaves the store alone. */
  lemma WriteIfChangedTwice(store: Store, path: string, content: string)
    ensures var first := WriteIfChanged(store, path, content);
      var second := WriteIfChanged(first.store, path, content);
      !second.changed && second.store == first.store
  {
  }
}
