# Article slug normaliser

This project models the `Article` fixture model of the couchrest_model
library. Before a document is saved, its `before_save` hook
`generate_slug_from_title` derives a slug from the title. The slug is also
the document's unique id (`unique_id :slug`). The hook writes the slug only
while the document is new.

The slug is built by a four-stage string pipeline:

1. `downcase`
2. `gsub(/[^a-z0-9]/, '-')`: every character outside `[a-z0-9]` becomes `-`
3. `squeeze('-')`: every run of dashes collapses to one dash
4. `gsub(/^\-|\-$/, '')`: one leading dash and one trailing dash are dropped

Each stage is a pure function over `string` (`seq<char>`) in module
`SlugPipeline` (`slug_pipeline.dfy`). The character classes and the ASCII
case mapping are in `Ascii` (`ascii.dfy`). Properties that relate several
calls, and an independent one-pass definition of the slug, are in
`SlugProperties` (`slug_properties.dfy`). The document record and the hook
are in `ArticleModel` (`article_model.dfy`).

Stage 2 leaves no newline in the string, so the anchors `^` and `$` of stage 4
can only match at the start and the end. Stage 4 therefore becomes "drop one
leading `-`, then drop one trailing `-` of what is left". On the string `-`,
both alternatives of the pattern would match the same dash, and it is removed
once. The model removes at most one dash at each end, as the regex does. The
guarantee that no dash is left at an edge is then derived from stage 3's
guarantee that no `--` remains.

Squeeze is defined the way Ruby's `squeeze` scans its input: left to right,
each character is kept unless it is `-` and the last kept character is also
`-`.

## Model

| member | source | states |
|---|---|---|
| `Ascii.Downcase` | spec/fixtures/models/article.rb:42 | Never yields an upper-case ASCII letter. Maps `A`-`Z` to the letter at the same alphabet position in `a`-`z`. Leaves every other character unchanged. A character is an ASCII letter or digit exactly when its lower-case form is in `[a-z0-9]`. |
| `SlugPipeline.Lower` | spec/fixtures/models/article.rb:42 | Stage 1 keeps the length and leaves no upper-case ASCII letter. An upper-case ASCII letter at position i becomes the lower-case letter at the same alphabet position, and every other character is kept. Position i lands in `[a-z0-9]` exactly when the title's character i is an ASCII letter or digit. A string that is already lower-case is unchanged. |
| `SlugPipeline.DashNonAlnum` | spec/fixtures/models/article.rb:42 | Stage 2 keeps the length and yields only `[a-z0-9-]`, so no newline remains. Position i is `-` exactly when the input character is outside `[a-z0-9]`; otherwise the character is kept. A string already in `[a-z0-9-]` is unchanged. |
| `SlugPipeline.Squeeze` | spec/fixtures/models/article.rb:42 | Stage 3 never lengthens its input and takes characters only from it (multiset inclusion). The result holds no `--`. Together with `SlugPipeline.SqueezeCollapses`, this fixes the result on every input. It keeps every non-dash character in order and ends with the input's last character. It preserves `[a-z0-9-]`, and it is the identity on strings without `--`. |
| `SlugPipeline.SqueezeCollapses` | spec/fixtures/models/article.rb:42 | A run of dashes becomes exactly one dash, never zero: doubling a dash anywhere in the input leaves the squeezed result unchanged. |
| `SlugPipeline.DropLeadingDash` | spec/fixtures/models/article.rb:42 | The `^\-` alternative: the input is `-` followed by the result when it starts with `-`, and equals the result otherwise. |
| `SlugPipeline.DropTrailingDash` | spec/fixtures/models/article.rb:42 | The `\-$` alternative: the input is the result followed by `-` when it ends with `-`, and equals the result otherwise. |
| `SlugPipeline.StripEdgeDashes` | spec/fixtures/models/article.rb:42 | Stage 4 removes one leading dash and one trailing dash, if present, and nothing else: the result is the slice of the input between them. It keeps every non-dash character in order, preserves `[a-z0-9-]`, and leaves a string with no edge dash unchanged. On a string without `--` the result has no `--` and no dash at either end. |
| `SlugPipeline.UndashedOfDashed` | spec/fixtures/models/article.rb:42 | After stages 1 and 2, deleting the dashes leaves exactly the title's ASCII letters and digits, lower-cased, in their original order. |
| `SlugPipeline.Slug` | spec/fixtures/models/article.rb:42 | Every slug character is in `[a-z0-9-]`. A slug holds no `--` and has no `-` at either end. Deleting its dashes leaves exactly the title's ASCII letters and digits, lower-cased, in order. It is never longer than the title. It is empty exactly when the title has no ASCII letter or digit. |
| `SlugProperties.SlugIgnoresCase` | spec/fixtures/models/article.rb:42 | Lower-casing a title first does not change its slug. |
| `SlugProperties.SlugFixedPoints` | spec/fixtures/models/article.rb:42 | The pipeline leaves a string unchanged exactly when the string is a well-formed slug, in both directions. |
| `SlugProperties.SlugIdempotent` | spec/fixtures/models/article.rb:42 | Running the pipeline on a slug returns the slug unchanged. |
| `SlugProperties.ScanTracksPipeline` | spec/fixtures/models/article.rb:42 | After every prefix of the title, the one-pass scan's output equals stage 4 applied to the squeezed prefix. A separator is pending exactly when the squeezed prefix ends with `-`. |
| `SlugProperties.SlugByScanAgrees` | spec/fixtures/models/article.rb:42 | The four-stage pipeline equals an independent one-pass definition. That definition writes each letter or digit, lower-cased, and puts a single `-` between two of them exactly when a non-alphanumeric character separates them in the title. |
| `ArticleModel.BeforeSave` | spec/fixtures/models/article.rb:39-43 | The hook fails exactly when the document is new and has no title. Otherwise no field but `slug` changes. A saved document keeps its slug. A new document gets the slug of its title, which is a well-formed slug. |
| `ArticleModel.BeforeSaveIdempotent` | spec/fixtures/models/article.rb:39-43 | Running the hook again on its own output gives the same document. |
| `ArticleModel.SavedSlugIgnoresTitle` | spec/fixtures/models/article.rb:42 | Once a document is saved, the hook leaves it untouched whatever its title is, a missing title included. |
| `ArticleModel.CaseVariantTitlesCollide` | spec/fixtures/models/article.rb:42 | Two new documents whose titles agree once lower-cased get the same slug. |

## Left out

- Views and design documents (`view_by`, `by_*`, `find_by_*`, reduce defaults, design-document sync): their implementation is not part of this model, and `spec/unit/view_spec.rb` drives them only against a live database.
- CouchDB key collation for compound keys belongs to the store, not to this library.
- The JavaScript map and reduce sources of `view_by :tags` and `view_by :user_id_and_time` are opaque text sent to the server.
- Property declarations and type casting (`property :date, Date`, …), `timestamps!` and wall-clock time: `date` and `time` are kept as opaque optional integers, and the timestamp fields are not represented.
- `provides_collection` pagination wraps library code that is not part of this model.
- Copying the slug into the document's `_id` (`unique_id :slug`) is library code that is not part of this model. `ArticleModel.CaseVariantTitlesCollide` therefore speaks of the slug only, not of the id.
- The read-only flag on `slug` is not modelled. It only hides the public setter, and the hook writes through `self['slug']`.
- Ascii.Downcase: only `A`-`Z` are lower-cased, and every other character is unchanged. Ruby's Unicode case mapping also maps a few non-ASCII characters to ASCII letters (the Kelvin sign to `k`), and it expands some into several characters. The model therefore agrees with Ruby on titles whose non-ASCII characters lower-case to single non-ASCII characters, and the length bound of `SlugPipeline.Slug` is proved for that model.
- Strings are sequences of Unicode scalar values. A title with an invalid byte encoding, on which Ruby's `gsub` raises, is not represented.
- A `nil` title on a new document makes Ruby raise `NoMethodError` and abort the save. This is modelled as the `TitleMissing` error of `ArticleModel.BeforeSave`. A title of another non-string type, which raises in the same way, is not represented: the title is `Option<string>`.
- Callback-chain halting is not modelled. The hook returns either the slug or `nil`, never `false`, so it never halts the chain.
