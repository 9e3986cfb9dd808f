/**
 * The `Php` catalog adapter of li3's g11n layer: it resolves a
 * (category, locale, scope) triple to a catalog file below the configured
 * directory and turns the key/value array that file returns into the
 * records `{id, translated, context}` it hands, one by one, to the parent
 * adapter's merge step.
 *
 * The file system is a value (`Disk`): the directories that exist and, for
 * each existing catalog file, the array it returns when required, as its
 * entries in order.
 */
module PhpCatalog {
  import opened Wrappers
  import opened PhpString

  /** The adapter's configuration: the directory holding the catalogs. */
  datatype Config = Config(path: string)

  /** Raised by initialisation when the configured directory is missing. */
  datatype ConfigError = DirectoryMissing(path: string)

  /** What the adapter can see of the file system. */
  datatype Disk<V> = Disk(dirs: set<string>, files: map<string, seq<(string, V)>>)

  /**
   * The array built by `compact('id', 'translated', 'context')`: `context`
   * is `None` while no `$context` variable has been set yet.
   */
  datatype Record<V> = Record(id: string, translated: V, context: Option<string>)

  const TemplateMarker: string := "Template"
  const DefaultScope: string := "default"
  const Extension: string := ".php"

  /** PHP truthiness of a string: only "" and "0" are falsy. */
  predicate IsTruthy(s: string)
  {
    s != "" && s != "0"
  }

  /** `$scope ?: 'default'`. */
  function EffectiveScope(scope: string): (r: string)
    ensures IsTruthy(r)
    ensures r == scope || r == DefaultScope
  {
    if IsTruthy(scope) then scope else DefaultScope
  }

  /** Defaulting the scope once is enough. */
  lemma EffectiveScopeIdempotent(scope: string)
    ensures EffectiveScope(EffectiveScope(scope)) == EffectiveScope(scope)
    ensures IsTruthy(scope) ==> EffectiveScope(scope) == scope
    ensures !IsTruthy(scope) ==> EffectiveScope(scope) == DefaultScope
  {
  }

  /** `_init`: the adapter is usable only if its directory exists. */
  function Init<V>(config: Config, disk: Disk<V>): (r: Result<Config, ConfigError>)
    ensures r.Ok? <==> config.path in disk.dirs
    ensures r.Ok? ==> r.value == config
    ensures r.Err? ==> r.error.path == config.path
  {
    if config.path !in disk.dirs then Err(DirectoryMissing(config.path)) else Ok(config)
  }

  /**
   * `_file`: the catalog filename for a category, locale and scope.  A
   * category containing "Template" is cut at its first occurrence and names
   * a flat file directly below the path; any other names a file nested by
   * locale and category.  Every filename lies below `path` and ends in ".php".
   */
  function File(path: string, category: string, locale: string, scope: string): (r: string)
    ensures |r| >= |path| + 1 + |Extension|
    ensures r[..|path| + 1] == path + "/"
    ensures r[|r| - |Extension|..] == Extension
  {
    var s := EffectiveScope(scope);
    match StrPos(category, TemplateMarker)
    case Some(pos) =>
      var r := path + "/" + category[..pos] + "_" + s + Extension;
      assert r == (path + "/") + (category[..pos] + "_" + s) + Extension;
      r
    case None =>
      var r := path + "/" + locale + "/" + category + "/" + s + Extension;
      assert r == (path + "/") + (locale + "/" + category + "/" + s) + Extension;
      r
  }

  /** Without "Template" in the category, the file is nested by locale and category. */
  lemma FileNested(path: string, category: string, locale: string, scope: string)
    requires forall j :: !OccursAt(category, TemplateMarker, j)
    ensures File(path, category, locale, scope)
         == path + "/" + locale + "/" + category + "/" + EffectiveScope(scope) + ".php"
  {
  }

  /**
   * With "Template" first occurring at `pos`, the file is flat: the category
   * up to `pos`, an underscore and the scope.
   */
  lemma FileFlat(path: string, category: string, locale: string, scope: string, pos: nat)
    requires OccursAt(category, TemplateMarker, pos)
    requires forall j :: 0 <= j < pos ==> !OccursAt(category, TemplateMarker, j)
    ensures File(path, category, locale, scope)
         == path + "/" + category[..pos] + "_" + EffectiveScope(scope) + ".php"
  {
    StrPosAt(category, TemplateMarker, pos);
  }

  /** A category that starts with "Template" is cut to the empty string. */
  lemma FileTemplateFirst(path: string, category: string, locale: string, scope: string)
    requires |category| >= |TemplateMarker| && category[..|TemplateMarker|] == TemplateMarker
    ensures File(path, category, locale, scope) == path + "/_" + EffectiveScope(scope) + ".php"
  {
    assert OccursAt(category, TemplateMarker, 0);
    FileFlat(path, category, locale, scope, 0);
  }

  /** For a template category the locale has no effect on the filename. */
  lemma FileIgnoresLocale(path: string, category: string, locale1: string, locale2: string, scope: string)
    requires exists j :: OccursAt(category, TemplateMarker, j)
    ensures File(path, category, locale1, scope) == File(path, category, locale2, scope)
  {
  }

  /**
   * One pass of the `foreach` body: the record handed to the merge step for
   * `key => translated` when `$context` holds `context`.  A key with a "|"
   * is exploded and its first two pieces become `$id` and `$context`.
   */
  function Compact<V>(key: string, translated: V, context: Option<string>): (r: Record<V>)
    ensures r.translated == translated
    ensures r.context.None? ==> context.None?
  {
    if StrPos(key, "|").Some? then
      var pieces := Explode(key, '|');
      Record(pieces[0], translated, Some(pieces[1]))
    else
      Record(key, translated, context)
  }

  /** A key without "|" passes through unchanged and keeps the current context. */
  lemma CompactPlain<V>(key: string, translated: V, context: Option<string>)
    requires '|' !in key
    ensures Compact(key, translated, context) == Record(key, translated, context)
  {
    StrPosChar(key, '|');
  }

  /**
   * `id` is the text of `key` before its first "|" and `context` the text
   * after it up to the next "|" or the end of the key.
   */
  predicate SplitsAs(key: string, id: string, context: string)
  {
    && '|' !in id && '|' !in context
    && |id| + 1 + |context| <= |key|
    && key[..|id|] == id && key[|id|] == '|'
    && key[|id| + 1..|id| + 1 + |context|] == context
    && (|id| + 1 + |context| == |key| || key[|id| + 1 + |context|] == '|')
  }

  /**
   * A key with "|" yields as id the text before its first "|" and as context
   * the text between the first and the second "|" (or to the end of the key
   * when there is no second one); whatever follows is dropped.
   */
  lemma CompactSplit<V>(key: string, translated: V, context: Option<string>)
    requires '|' in key
    ensures var r := Compact(key, translated, context);
      r.context.Some? && SplitsAs(key, r.id, r.context.value)
  {
    StrPosChar(key, '|');
    ExplodeFirstTwo(key, '|');
  }

  /**
   * The records handed to the merge step, in order, for the entries of a
   * loaded catalog, starting with `$context` holding `context`.
   */
  function Records<V>(entries: seq<(string, V)>, context: Option<string>): (r: seq<Record<V>>)
    ensures |r| == |entries|
  {
    if entries == [] then []
    else
      var first := Compact(entries[0].0, entries[0].1, context);
      [first] + Records(entries[1..], first.context)
  }

  /** The i-th record is one pass of the loop body with the context left by the record before. */
  lemma {:induction false} RecordAt<V>(entries: seq<(string, V)>, context: Option<string>, i: nat)
    requires i < |entries|
    ensures Records(entries, context)[i]
         == Compact(entries[i].0, entries[i].1, if i == 0 then context else Records(entries, context)[i - 1].context)
    decreases i
  {
    if i > 0 {
      var first := Compact(entries[0].0, entries[0].1, context);
      var rest := entries[1..];
      assert Records(entries, context) == [first] + Records(rest, first.context);
      RecordAt(rest, first.context, i - 1);
    }
  }

  /**
   * Each entry of the loaded array reaches the merge step exactly once, in
   * the array's order, with its own value as `translated`.
   */
  lemma RecordsKeepValues<V>(entries: seq<(string, V)>, context: Option<string>)
    ensures |Records(entries, context)| == |entries|
    ensures forall i :: 0 <= i < |entries| ==> Records(entries, context)[i].translated == entries[i].1
  {
    forall i | 0 <= i < |entries| ensures Records(entries, context)[i].translated == entries[i].1 {
      RecordAt(entries, context, i);
    }
  }

  /** A key without "|" is passed on with its raw key as id and the context in force. */
  lemma RecordOfPlainKey<V>(entries: seq<(string, V)>, context: Option<string>, i: nat)
    requires i < |entries| && '|' !in entries[i].0
    ensures Records(entries, context)[i].id == entries[i].0
    ensures Records(entries, context)[i].context
         == if i == 0 then context else Records(entries, context)[i - 1].context
  {
    RecordAt(entries, context, i);
    CompactPlain(entries[i].0, entries[i].1, if i == 0 then context else Records(entries, context)[i - 1].context);
  }

  /** A key with "|" is passed on as the text before its first "|" and the piece after it. */
  lemma RecordOfSplitKey<V>(entries: seq<(string, V)>, context: Option<string>, i: nat)
    requires i < |entries| && '|' in entries[i].0
    ensures var r := Records(entries, context)[i];
      r.context.Some? && SplitsAs(entries[i].0, r.id, r.context.value)
  {
    RecordAt(entries, context, i);
    CompactSplit(entries[i].0, entries[i].1, if i == 0 then context else Records(entries, context)[i - 1].context);
  }

  /** Until a key with "|" has been read, records carry the starting context (none, for a read). */
  lemma {:induction false} ContextBeforeSplit<V>(entries: seq<(string, V)>, context: Option<string>, i: nat)
    requires i < |entries|
    requires forall j :: 0 <= j <= i ==> '|' !in entries[j].0
    ensures Records(entries, context)[i].context == context
  {
    RecordOfPlainKey(entries, context, i);
    if i > 0 {
      ContextBeforeSplit(entries, context, i - 1);
    }
  }

  /**
   * `$context` is never reset: after the key at `j` set it, every later key
   * without "|" up to `i` is passed on with that same context.
   */
  lemma {:induction false} ContextCarried<V>(entries: seq<(string, V)>, context: Option<string>, j: nat, i: nat)
    requires j <= i < |entries|
    requires '|' in entries[j].0
    requires forall k :: j < k <= i ==> '|' !in entries[k].0
    ensures Records(entries, context)[i].context == Records(entries, context)[j].context
    ensures Records(entries, context)[i].context.Some?
  {
    RecordOfSplitKey(entries, context, j);
    if i > j {
      RecordOfPlainKey(entries, context, i);
      ContextCarried(entries, context, j, i - 1);
    }
  }

  /**
   * `read`: resolve the file; if it exists, walk its entries in order,
   * splitting keys and carrying `$context` from pass to pass, and hand each
   * record to the merge step.  The result is the sequence of those records.
   */
  method Read<V>(config: Config, disk: Disk<V>, category: string, locale: string, scope: string)
    returns (merged: seq<Record<V>>)
    ensures var file := File(config.path, category, locale, scope);
      merged == if file in disk.files then Records(disk.files[file], None) else []
  {
    var file := File(config.path, category, locale, scope);
    merged := [];
    if file in disk.files {
      merged := ReadEntries(disk.files[file]);
    }
  }

  /**
   * The `foreach` of `read` over a loaded catalog: `$id` and `$context` are
   * reassigned by a key with "|", and `$context` is kept for later keys.
   */
  method ReadEntries<V>(entries: seq<(string, V)>) returns (merged: seq<Record<V>>)
    ensures merged == Records(entries, None)
  {
    merged := [];
    var context: Option<string> := None;
    var i := 0;
    while i < |entries|
      invariant 0 <= i <= |entries|
      invariant merged == Records(entries, None)[..i]
      invariant context == if i == 0 then None else merged[i - 1].context
    {
      var key, translated := entries[i].0, entries[i].1;
      var id := key;
      if StrPos(key, "|").Some? {
        var pieces := Explode(key, '|');
        id, context := pieces[0], Some(pieces[1]);
      }
      RecordAt(entries, None, i);
      merged := merged + [Record(id, translated, context)];
      i := i + 1;
    }
  }
}
