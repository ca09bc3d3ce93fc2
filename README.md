# remarkable-splasher: template configuration builder

`build.rb` lists the `.png` images of `./template-templates/`. For each image it
builds one template record for the reMarkable template picker:

- `name`: a display name derived from the file name;
- `filename`: the file name up to its first `.`;
- three constant fields: icon code U+E9DB, `landscape` `"false"` and
  `categories` `["Custom"]`.

The records are then written one per line to `template-config.json`.

This project models the part of the script that turns a listing into the
configuration text:

- `ruby_text.dfy` (module `RubyText`) covers the Ruby string operations the
  script chains, on ASCII text:
  - `String#split` with a one-character separator other than `' '` (Ruby
    splits on whitespace for that pattern), including Ruby's dropping of
    trailing empty fields;
  - `String#split` with no argument, which is awk-style whitespace splitting;
  - `Array#join` with a one-character separator;
  - `String#gsub` of one character by another;
  - `String#capitalize` and `Array#map(&:capitalize)`.
- `template_config.dfy` (module `TemplateConfig`) covers the script itself:
  - `File.basename`, the file stem and the display name;
  - the record literal;
  - the `each` loop that appends records to `config_entries`, as a method with a
    loop invariant proved against the function `Collect`;
  - the final `join("\n")`.

The file stem follows the code rather than the intent of "strip the
extension". `split('.')` drops trailing empty fields, so an empty base name, or
one made only of dots, has no field 0. The stem is then `nil` and the next call,
`gsub`, raises `NoMethodError`, which ends the whole run. The model gives such a
stem as `None`, and the loop's result as `Crashed(at)` or `Aborted(at)` at the
first such path. `GlobListingHasStems` proves that no path of a listing the
`*.png` glob produces reaches this `NoMethodError`, because the glob never lists
dot files, and `GlobListingBuilds` proves that the loop then completes.

## Model

| member | source | states |
|---|---|---|
| RubyText.SplitOn | build.rb:9 | splitting on a separator yields at least one field, and no field contains the separator |
| RubyText.Join | build.rb:20 | computes `Array#join` with a one-character separator (also the `join(' ')` of line 11); its properties are stated by `JoinSplitOn`, `SplitOnJoin`, `JoinSeparatorCount` and `JoinEmpty` |
| RubyText.JoinSplitOn | build.rb:9 | joining the fields of a split with the same separator gives back the original string |
| RubyText.SplitOnJoin | build.rb:20 | splitting a join of separator-free parts on the separator recovers exactly those parts |
| RubyText.JoinSeparatorCount | build.rb:20 | a join of separator-free parts contains the separator exactly one time fewer than there are parts |
| RubyText.JoinEmpty | build.rb:20 | a join is empty exactly when there are no parts, or a single empty part |
| RubyText.Split | build.rb:9 | computes `split(sep)` for a separator other than `' '`: the fields of `SplitOn` without trailing empty ones; its properties are stated by `SplitSpec` |
| RubyText.DropTrailingEmpty | build.rb:9 | computes the removal of trailing empty fields; its properties are stated by `DropTrailingEmptySpec` |
| RubyText.DropTrailingEmptySpec | build.rb:9 | dropping trailing empty fields keeps a prefix of the fields, leaves a non-empty last field, and drops only empty fields |
| RubyText.SplitSpec | build.rb:9 | `split('.')` is a prefix of the full field list, ends in a non-empty field, and drops only empty fields |
| RubyText.SplitOnAllEmpty | build.rb:9 | every field of a split is empty exactly when the string consists only of separators |
| RubyText.Words | build.rb:11 | whitespace splitting yields only non-empty words that contain no whitespace; together with `WordsSplitAt` and `WordsOfWord` this determines the words as the maximal whitespace-free runs |
| RubyText.WordEndAppend | build.rb:11 | a run of non-whitespace that ends inside a text, or at its end before whitespace, ends at the same place when text is appended |
| RubyText.WordsSplitAt | build.rb:11 | any whitespace character is a word boundary: the words of `a`, whitespace, `b` are the words of `a` followed by those of `b`, so runs of whitespace never give empty words |
| RubyText.WordsBeforeSpace | build.rb:11 | the words of `a` followed by a text starting with whitespace are the words of `a` then those of the rest |
| RubyText.WordsAfterWord | build.rb:11 | the same boundary fact when `a` starts with a word |
| RubyText.WordsOfWord | build.rb:11 | a non-empty text without whitespace is a single word, itself |
| RubyText.WordsAvoid | build.rb:11 | a character absent from the text is absent from every word of it |
| RubyText.WordsOfJoin | build.rb:11 | whitespace-splitting non-empty, whitespace-free words joined with single spaces gives back exactly those words |
| RubyText.WordsKeepText | build.rb:11 | the words of a text, concatenated, are the text with its whitespace removed, so no non-blank character is lost or added |
| RubyText.JoinSingleSpaced | build.rb:11 | non-empty, whitespace-free words joined with ' ' have no leading, trailing or doubled space and no other whitespace |
| RubyText.GsubAppend | build.rb:11 | replacement works character by character, so it distributes over concatenation |
| RubyText.Gsub | build.rb:11 | replacement keeps the length, replaces every `from` by `to`, leaves every other character, and leaves no `from` when `from != to` |
| RubyText.Capitalize | build.rb:11 | capitalizing keeps the length and each letter up to case, preserves whitespace-freedom, and gives a capitalized word for a non-empty word |
| RubyText.CapitalizeCapitalized | build.rb:11 | capitalizing an already capitalized word leaves it unchanged |
| RubyText.CapitalizeAvoids | build.rb:11 | a non-letter character absent from a word is absent from the word capitalized |
| RubyText.CapitalizeAll | build.rb:11 | `map(&:capitalize)` turns every non-empty word into a capitalized word, keeps whitespace-free words whitespace-free, and never introduces a non-letter (such as '-') that a word lacked |
| TemplateConfig.Basename | build.rb:9 | the base name is empty only for the empty path, and otherwise is "/" or a single component with no '/' |
| TemplateConfig.BasenameOfChild | build.rb:9 | the base name of `dir/name` is `name` for a non-empty name without '/' |
| TemplateConfig.Stem | build.rb:9 | computes `split('.')[0]` of a base name, with nil as `None`; its properties are stated by `StemSpec` |
| TemplateConfig.FileStem | build.rb:9 | computes the stem of a path's base name; `GlobbedPathStem` states it for listed paths |
| TemplateConfig.StemSpec | build.rb:9 | the stem is nil exactly when the base name is all dots (or empty); otherwise it is a dot-free prefix of the base name that ends at its end or at a '.' |
| TemplateConfig.StemBeforeFirstDot | build.rb:9 | when the base name has a non-dot character and its first '.' is at position i, the stem is the text before i |
| TemplateConfig.StemExamples | build.rb:9 | `sample-template-one.png` gives stem `sample-template-one`, and `a.b.png` gives stem `a` |
| TemplateConfig.GlobbedPathStem | build.rb:4-9 | a file matched by `*.png` in the template directory has a non-empty stem, which is a prefix of its name ending before ".png" |
| TemplateConfig.GlobListingHasStems | build.rb:4-9 | no path in a `*.png` listing has a nil stem, so none reaches the nil-stem `NoMethodError` |
| TemplateConfig.GlobListingBuilds | build.rb:4-17 | on a listing of `*.png` names in the template directory the loop completes with one record per file, so `Run` writes the text |
| TemplateConfig.DisplayNameShape | build.rb:11 | the display name has no hyphen and is single-spaced; its words are the capitalized words of the stem, and splitting it on ' ' gives those words |
| TemplateConfig.NameWords | build.rb:11 | computes the capitalized words of the stem with hyphens read as spaces; its properties are stated by `NameWordsShape` and `NameWordsAtHyphen` |
| TemplateConfig.DisplayName | build.rb:11 | computes the display name, the name words joined with single spaces; its properties are stated by `DisplayNameShape`, `DisplayNameKeepsWords`, `DisplayNameIdempotent` and `DisplayNameCollapsesHyphens` |
| TemplateConfig.NameWordsShape | build.rb:11 | every name word is capitalized and contains no whitespace and no hyphen |
| TemplateConfig.NameWordsAtHyphen | build.rb:11 | a hyphen in the stem is a word boundary: the name's words are those of the text before it followed by those after it |
| TemplateConfig.NameWordsAfterHyphen | build.rb:11 | a leading hyphen adds no word |
| TemplateConfig.DisplayNameCollapsesHyphens | build.rb:11 | a doubled hyphen gives the same display name as a single one (`my--cool-template` and `my-cool-template` are named alike) |
| TemplateConfig.DisplayNameKeepsWords | build.rb:11 | the display name has as many words as the stem with hyphens read as spaces, of the same lengths, and the same letters up to case |
| TemplateConfig.DisplayNameIdempotent | build.rb:11 | deriving a display name from a display name returns it unchanged |
| TemplateConfig.EntryFor | build.rb:10-16 | computes the record literal for a stem; `EntryOfSpec` states that it is well formed |
| TemplateConfig.EntryOf | build.rb:9-16 | computes the loop body for one path: its record, or `None` where `gsub` would be called on nil; its properties are stated by `EntryOfSpec` |
| TemplateConfig.EntryOfSpec | build.rb:9-16 | a path gets a record exactly when its stem is not nil; the record's filename is the stem, its name is derived from it, and the other fields are the constants |
| TemplateConfig.Collect | build.rb:7-17 | computes what the loop has produced after a listing; its properties are stated by `CollectSpec`, and `CollectEntries` is proved equal to it |
| TemplateConfig.CollectSpec | build.rb:7-17 | the loop completes exactly when every path yields a record, and then record i belongs to path i; otherwise it stops at the first path without one |
| TemplateConfig.CollectEntries | build.rb:7-17 | the loop appends one record per path in listing order, and stops at the first path whose stem is nil |
| TemplateConfig.BuiltRecords | build.rb:7-17 | every record of a completed run is well formed and belongs to the path at the same position |
| TemplateConfig.ConfigText | build.rb:20 | computes `config_entries.join("\n")` of the rendered records; its properties are stated by `ConfigTextFraming` |
| TemplateConfig.ConfigTextFraming | build.rb:20 | no records give empty text; N records with line-break-free renderings give N-1 line breaks, and splitting on them recovers each rendering in order |
| TemplateConfig.Run | build.rb:7-20 | the text is written exactly when the loop completes, and is then the joined renderings of its records; otherwise the run aborts at the loop's failing position |

## Left out

- The directory listing (`Dir[...]`, line 4) is I/O. `Run` takes the listing as
  a parameter, in any order: since Ruby 3.0 `Dir[]` returns the names sorted,
  while older versions return them in directory order, and any order covers
  both.
  `MatchesPngGlob` states which names the glob can list. A missing directory
  simply gives an empty listing in Ruby and needs no separate case.
- A listed file whose name is not valid in the file-system encoding (a `0xFF`
  byte on Linux, for instance) makes `split('.')` raise `ArgumentError` at
  line 9. Names are sequences of characters here, so such names, and that
  error, are not modelled; `GlobListingBuilds` holds for valid names only.
- Creating and writing `template-config.json` (lines 19-20) is I/O and is not
  modelled. Neither is a failure to create or write that file. `Run` returns
  the text that would be written.
- The progress and success messages printed with `puts` (lines 5 and 22-27) are
  not modelled.
- ConfigTextFraming: the text of one record is Ruby's `Hash#to_s` rendering.
  Its exact characters (quoting, escaping, `=>` or `key:` syntax by Ruby
  version) are not modelled. It is a function parameter `render`. The empty
  text for no records holds for any rendering; the line-break count and the
  recovery of each record by splitting hold for renderings without a line
  break. Ruby's rendering meets that condition: `Hash#to_s` prints strings
  with `inspect`, so a line break inside a name or a file name appears escaped
  as the two characters `\n`, and the constants hold none.
- Capitalize: only ASCII letters change case. Ruby's full Unicode case mapping
  (title case, special casing) is not modelled.
- Words: only ASCII whitespace separates words, as in Ruby's whitespace split.
  The case of a non-ASCII-compatible string encoding is not modelled.
- Basename: only '/' separates path components. Windows separators and drive
  letters are not modelled.
- CollectEntries: the loop body is a parameter `step` of the method. `Run`
  passes `EntryOf`, the body of lines 9-16, so the crash is modelled as a
  `None` result rather than as an exception with its message text.
- StemExamples: the display name of the example `sample-template-one`
  ("Sample Template One") is not evaluated on the literal. Its shape is covered
  for every stem by `DisplayNameShape` and `DisplayNameKeepsWords`.
