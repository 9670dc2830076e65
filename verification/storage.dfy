/** The `spoilers` entry of `chrome.storage.sync`, shared by the popup and the content script. */
module Storage {
  import opened Wrappers

  /** The stored topic list; `None` while the key has never been written. */
  type Store = Option<seq<string>>

  /** `chrome.storage.sync.get({ spoilers: [] })`: the stored list, or the empty default. */
  function Spoilers(store: Store): seq<string> {
    store.GetOr([])
  }
}
