/**
 * The plugin's option handling (index.js:96-118): the caller's options
 * object is extended with the defaults, and since the defaults are the
 * source of the copy they overwrite whatever the caller passed.
 */
module PluginOptions {

  /** The option values the plugin distinguishes. */
  datatype OptionValue =
    | Text(text: string)
    | Flag(flag: bool)
      /** The built-in include loader of index.js:102-117 */
    | DefaultLoader
      /** A loader function supplied by the caller, told apart by an identifier */
    | CustomLoader(id: nat)

  /** The default options. */
  function Defaults(): map<string, OptionValue>
  {
    map[
      "target" := Text("dist/"),
      "targetWrite" := Flag(true),
      "filename" := Flag(false),
      "template" := Text("src/layout.html"),
      "logo" := Text("node_modules/slate/source/images/logo.png"),
      "includeLoader" := DefaultLoader
    ]
  }

  /**
   * The options after the merge: every default key holds its default, and a
   * caller's key without a default is kept.
   */
  function Merged(caller: map<string, OptionValue>): (m: map<string, OptionValue>)
    ensures m.Keys == caller.Keys + Defaults().Keys
    ensures forall k :: k in Defaults() ==> m[k] == Defaults()[k]
    ensures forall k :: k in caller && k !in Defaults() ==> m[k] == caller[k]
  {
    caller + Defaults()
  }

  /** An options object, updated in place by the merge. */
  class Options {
    var entries: map<string, OptionValue>

    constructor (entries: map<string, OptionValue>)
      ensures this.entries == entries
    {
      this.entries := entries;
    }

    /** `_.extend(this, source)`: copies every key of `source` onto this object, one key at a time. */
    method Extend(source: map<string, OptionValue>)
      modifies this
      ensures entries == old(entries) + source
    {
      var pending := source.Keys;
      while pending != {}
        invariant pending <= source.Keys
        invariant entries.Keys == old(entries).Keys + (source.Keys - pending)
        invariant forall k :: k in source && k !in pending ==> entries[k] == source[k]
        invariant forall k :: k in old(entries) && k !in source ==> entries[k] == old(entries)[k]
        invariant forall k :: k in old(entries) && k in pending ==> entries[k] == old(entries)[k]
        decreases pending
      {
        var k :| k in pending;
        entries := entries[k := source[k]];
        pending := pending - {k};
      }
      assert entries == old(entries) + source;
    }
  }

  /**
   * The plugin's first step, `opts = _.extend(opts, defaults)`: the caller's
   * object, extended with the defaults. When no object was passed, a new one
   * holding the defaults, as lodash 4's `_.extend` does with `null` or
   * `undefined`.
   */
  method ApplyDefaults(opts: Options?) returns (r: Options)
    modifies opts
    ensures opts != null ==> r == opts && r.entries == Merged(old(opts.entries))
    ensures opts == null ==> fresh(r) && r.entries == Defaults()
  {
    if opts == null {
      r := new Options(map[]);
    } else {
      r := opts;
    }
    r.Extend(Defaults());
    assert opts == null ==> map[] + Defaults() == Defaults();
  }

  /**
   * Whatever the caller passes, the output name is never overridden (the
   * merged `filename` is `false`), assets are always built, and the include
   * loader is always the built-in one.
   */
  lemma {:induction false} CallerCannotOverrideDefaults(caller: map<string, OptionValue>)
    ensures Merged(caller)["filename"] == Flag(false)
    ensures Merged(caller)["targetWrite"] == Flag(true)
    ensures Merged(caller)["includeLoader"] == DefaultLoader
    ensures Merged(caller)["target"] == Text("dist/")
    ensures Merged(caller)["template"] == Text("src/layout.html")
  {
  }
}
