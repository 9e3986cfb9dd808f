# li3 g11n `Php` catalog adapter in Dafny

This project models the `Php` catalog adapter of the li3 framework's
globalisation (g11n) layer. The adapter serves localized message and
validation catalogs kept as PHP files, each of which returns an array. The
model covers three things the adapter does:

- **`_file`**: it resolves a (category, locale, scope) triple to a filename
  below the configured directory. An empty scope (or `"0"`, which PHP also
  treats as false) becomes `"default"`. A category that contains `"Template"`
  is cut at the first occurrence and gives the flat name
  `{path}/{category}_{scope}.php`, whatever the locale. Any other category
  gives the nested name `{path}/{locale}/{category}/{scope}.php`.
- **`read`**: when that file exists, it walks the returned array in order.
  For each key it builds the record `{id, translated, context}` and hands it
  to the parent adapter's merge step. A key holding the bar character `|`
  is exploded, and its first two pieces become `id` and `context`; any
  further pieces are dropped.
  The `context` variable is never reset, so a later key without `|` is passed
  on with the last context seen. Before any split key, the record has no
  context at all.
- **`_init`**: it fails when the configured path is not a directory.

Files:

- `wrappers.dfy`: `Option` and `Result`.
- `php_string.dfy` (module `PhpString`): PHP `strpos`, `explode` and
  `implode`, with their characterising lemmas.
- `php_catalog.dfy` (module `PhpCatalog`): the adapter.
  - `File` is `_file`.
  - `Init` is `_init`.
  - `Compact` is one pass of the `foreach` body.
  - `Records` is the specification of the whole loop.
  - `ReadEntries` is the loop itself, as a method with invariants.
  - `Read` is `read`.
- `examples_catalog.dfy` (module `CatalogExamples`): worked instances,
  derived from the general definitions.

The file system is a value, `Disk`: a set of directories, and a map from
each existing catalog file to the entries its array returns, in order.
`is_dir` is membership in the directory set. `file_exists` followed by
`require` is a map lookup. What `read` produces is modelled as the sequence
of records passed to the merge step, not the merged table, because the merge
helper belongs to the parent `Adapter` class, which is not part of this model.

The adapter is often described as splitting a key once, at its first bar,
with no context for a key without a bar, and as defaulting only an empty
scope. The code differs in three places, and the model follows the code:

- A key holding `|` is split on every `|`. The model keeps the first two
  pieces and drops the rest; it does not split once at the first `|`.
- A key without `|` keeps the context of the last split key. The model does
  not reset it to none.
- The scope falls back to `"default"` for `"0"` as well as for `""`.

## Model

| member | source | states |
|---|---|---|
| `PhpString.StrPos` | HCTF2018/finalweb2/www/libraries/lithium/g11n/catalog/adapter/Php.php:118 | `strpos` returns the first index where the needle occurs (no earlier occurrence exists), or false exactly when it occurs nowhere; index 0 is a hit |
| `PhpString.Explode` | HCTF2018/finalweb2/www/libraries/lithium/g11n/catalog/adapter/Php.php:98 | `explode` yields at least one piece, and two or more exactly when the delimiter is in the string |
| `PhpString.ExplodeImplode` | HCTF2018/finalweb2/www/libraries/lithium/g11n/catalog/adapter/Php.php:98 | the pieces of `explode` are free of the delimiter, and joining them with it gives back the key |
| `PhpString.ExplodeUnique` | HCTF2018/finalweb2/www/libraries/lithium/g11n/catalog/adapter/Php.php:98 | any delimiter-free pieces that join to the key are exactly what `explode` returns |
| `PhpString.ExplodeFirstTwo` | HCTF2018/finalweb2/www/libraries/lithium/g11n/catalog/adapter/Php.php:98 | `list($id, $context)` of an exploded key takes the text before the first bar and the text after it up to the next bar or the end |
| `PhpCatalog.EffectiveScope` | HCTF2018/finalweb2/www/libraries/lithium/g11n/catalog/adapter/Php.php:116 | the effective scope is always truthy, and is either the given scope or `"default"` |
| `PhpCatalog.EffectiveScopeIdempotent` | HCTF2018/finalweb2/www/libraries/lithium/g11n/catalog/adapter/Php.php:116 | a truthy scope is kept unchanged, a falsy one (`""`, `"0"`) becomes `"default"`, and defaulting twice changes nothing |
| `PhpCatalog.Init` | HCTF2018/finalweb2/www/libraries/lithium/g11n/catalog/adapter/Php.php:74-80 | initialisation succeeds exactly when the configured path is a directory; otherwise the error carries that path |
| `PhpCatalog.File` | HCTF2018/finalweb2/www/libraries/lithium/g11n/catalog/adapter/Php.php:114-123 | every resolved filename starts with the configured path followed by `/` and ends with `.php` |
| `PhpCatalog.FileNested` | HCTF2018/finalweb2/www/libraries/lithium/g11n/catalog/adapter/Php.php:122 | a category without `"Template"` resolves to `path/locale/category/scope'.php` |
| `PhpCatalog.FileFlat` | HCTF2018/finalweb2/www/libraries/lithium/g11n/catalog/adapter/Php.php:118-120 | a category whose first `"Template"` is at `pos` resolves to `path/category[..pos]_scope'.php` |
| `PhpCatalog.FileTemplateFirst` | HCTF2018/finalweb2/www/libraries/lithium/g11n/catalog/adapter/Php.php:118-119 | a category starting with `"Template"` (strpos 0 is found) is cut to the empty string: `path/_scope'.php` |
| `PhpCatalog.FileIgnoresLocale` | HCTF2018/finalweb2/www/libraries/lithium/g11n/catalog/adapter/Php.php:118-120 | for a category containing `"Template"` the locale has no effect on the filename |
| `PhpCatalog.Compact` | HCTF2018/finalweb2/www/libraries/lithium/g11n/catalog/adapter/Php.php:97-100 | one pass passes the entry's value on as `translated`, and a record without context only arises while no context was set |
| `PhpCatalog.CompactPlain` | HCTF2018/finalweb2/www/libraries/lithium/g11n/catalog/adapter/Php.php:97-100 | a key without a bar is passed on unchanged as `id`, with the context currently in force |
| `PhpCatalog.CompactSplit` | HCTF2018/finalweb2/www/libraries/lithium/g11n/catalog/adapter/Php.php:97-98 | a key with a bar yields a context; `id` is the text before the first bar, and the context is the text after it up to the second bar or the end |
| `PhpCatalog.Records` | HCTF2018/finalweb2/www/libraries/lithium/g11n/catalog/adapter/Php.php:96-101 | the loop hands the merge step exactly one record per entry |
| `PhpCatalog.RecordsKeepValues` | HCTF2018/finalweb2/www/libraries/lithium/g11n/catalog/adapter/Php.php:96-100 | the records come in the array's order, the i-th one carrying the i-th entry's value as `translated` |
| `PhpCatalog.RecordAt` | HCTF2018/finalweb2/www/libraries/lithium/g11n/catalog/adapter/Php.php:96-100 | the i-th record is one pass of the loop body, on the i-th entry, with the context left by record i-1 (the starting context for i = 0) |
| `PhpCatalog.RecordOfPlainKey` | HCTF2018/finalweb2/www/libraries/lithium/g11n/catalog/adapter/Php.php:97-100 | an entry whose key has no bar gets its raw key as `id` and keeps the previous record's context |
| `PhpCatalog.RecordOfSplitKey` | HCTF2018/finalweb2/www/libraries/lithium/g11n/catalog/adapter/Php.php:97-98 | an entry whose key has a bar gets the text before the first bar as `id` and the next piece as its context |
| `PhpCatalog.ContextBeforeSplit` | HCTF2018/finalweb2/www/libraries/lithium/g11n/catalog/adapter/Php.php:96-100 | until a key with a bar is read, every record carries the starting context (none in `read`, so `compact` omits it) |
| `PhpCatalog.ContextCarried` | HCTF2018/finalweb2/www/libraries/lithium/g11n/catalog/adapter/Php.php:96-100 | `$context` is never reset: every later key without a bar carries the context set by the last key with a bar |
| `PhpCatalog.ReadEntries` | HCTF2018/finalweb2/www/libraries/lithium/g11n/catalog/adapter/Php.php:96-101 | the `foreach` loop, which reassigns `$id` and `$context` in place, emits exactly the records of the specification `Records(entries, None)` |
| `PhpCatalog.Read` | HCTF2018/finalweb2/www/libraries/lithium/g11n/catalog/adapter/Php.php:90-104 | a missing file produces no merge call at all; an existing file produces the records of its entries, in order |
| `CatalogExamples.FlatTemplateFile` | HCTF2018/finalweb2/www/libraries/lithium/g11n/catalog/adapter/Php.php:116-120 | `("validationTemplate", "en", "")` below `/catalogs` resolves to `/catalogs/validation_default.php` |
| `CatalogExamples.NestedFile` | HCTF2018/finalweb2/www/libraries/lithium/g11n/catalog/adapter/Php.php:122 | `("message", "en", "default")` below `/catalogs` resolves to `/catalogs/en/message/default.php` |
| `CatalogExamples.ExtraPiecesDropped` | HCTF2018/finalweb2/www/libraries/lithium/g11n/catalog/adapter/Php.php:98 | the key made of `a`, `b`, `c` joined by bars becomes id `a` with context `b`; `c` is dropped |
| `CatalogExamples.PlainThenSplit` | HCTF2018/finalweb2/www/libraries/lithium/g11n/catalog/adapter/Php.php:96-100 | `greeting => hi` followed by `greeting`-bar-`formal` `=> hello` gives `(greeting, hi, no context)` then `(greeting, hello, formal)` |
| `CatalogExamples.ContextCarriedForward` | HCTF2018/finalweb2/www/libraries/lithium/g11n/catalog/adapter/Php.php:96-100 | `a`-bar-`x` `=> 1` followed by `b => 2` gives `(a, 1, x)` then `(b, 2, x)`: the plain key inherits context `x` |

## Left out

- The merge helper `_merge` and the parent class `lithium\g11n\catalog\Adapter` are not part of this model. `Read` therefore stops at the sequence of records handed to the merge step, and says nothing about the merged table.
- `is_dir`, `file_exists` and `require` are file-system input and the execution of a PHP file. They are replaced by the `Disk` value. A resolved name that is a directory is treated as a missing file. The model does not cover a file that fails to load, or one that returns something other than an array.
- The `ConfigException` and its message text are not modelled. `Init` returns an error value that carries the path.
- The constructor's defaulting of `path` to `null` is not modelled. A `null` path or scope is not modelled apart from the empty string; PHP interpolates both as `""`.
- Array keys are strings. PHP turns numeric keys into integers, and `strpos` then reads them as their decimal text; this is not modelled.
- The loaded array is a sequence, so the model also admits repeated keys, which a PHP array cannot hold. Every property holds for those inputs too.
- The notice PHP may emit when `compact` names the still-undefined `$context` is not modelled; the record simply has no context.
- `PhpString.StrPos` follows PHP 8 for an empty needle (found at 0). The adapter only searches for `"Template"` and `"|"`, so this case never arises here.
