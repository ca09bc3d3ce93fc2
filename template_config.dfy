/** build.rb: one template record per `.png` file of the template directory, each
    named after its file, rendered one per line into the configuration text. */
module TemplateConfig {
  import opened RubyText

  datatype Option<T> = None | Some(value: T)

  /** The directory whose `.png` files the script lists. */
  const SourceDir: string := "./template-templates"

  /** The fixed fields of every record. */
  const IconCode: string := "\U{E9DB}"
  const Landscape: string := "false"
  const Categories: seq<string> := ["Custom"]

  /** One record of the configuration, fields in their output order. */
  datatype Entry = Entry(
    name: string,
    filename: string,
    iconCode: string,
    landscape: string,
    categories: seq<string>)

  // ---------------------------------------------------------------------------
  // File.basename
  // ---------------------------------------------------------------------------

  function StripTrailingSlashes(p: string): (r: string)
    ensures r <= p
    ensures r == [] || r[|r| - 1] != '/'
    ensures forall k :: |r| <= k < |p| ==> p[k] == '/'
  {
    if p != [] && p[|p| - 1] == '/' then StripTrailingSlashes(p[..|p| - 1]) else p
  }

  /** The text after the last '/' of `t`. */
  function AfterLastSlash(t: string): (r: string)
    ensures Avoids(r, '/')
    ensures |r| <= |t| && r == t[|t| - |r|..]
    ensures |r| == |t| || t[|t| - |r| - 1] == '/'
  {
    if t == [] then []
    else if t[|t| - 1] == '/' then []
    else AfterLastSlash(t[..|t| - 1]) + [t[|t| - 1]]
  }

  /** File.basename: trailing slashes are ignored, then the last component is
      taken; a path of slashes only gives "/". */
  function Basename(path: string): (b: string)
    ensures |b| > 0 <==> |path| > 0
    ensures b == "/" || Avoids(b, '/')
  {
    var t := StripTrailingSlashes(path);
    if t == [] then (if path == [] then "" else "/")
    else AfterLastSlash(t)
  }

  lemma {:induction false} AfterLastSlashOfChild(dir: string, name: string)
    requires Avoids(name, '/')
    ensures AfterLastSlash(dir + "/" + name) == name
    decreases |name|
  {
    var t := dir + "/" + name;
    if name == [] {
      assert t[|t| - 1] == '/';
    } else {
      var n := |name|;
      assert t[..|t| - 1] == dir + "/" + name[..n - 1];
      assert t[|t| - 1] == name[n - 1];
      AfterLastSlashOfChild(dir, name[..n - 1]);
      assert name == name[..n - 1] + [name[n - 1]];
    }
  }

  /** The base name of a file listed in a directory is the file's own name. */
  lemma BasenameOfChild(dir: string, name: string)
    requires name != [] && Avoids(name, '/')
    ensures Basename(dir + "/" + name) == name
  {
    var p := dir + "/" + name;
    assert p[|p| - 1] == name[|name| - 1];
    assert StripTrailingSlashes(p) == p;
    AfterLastSlashOfChild(dir, name);
  }

  // ---------------------------------------------------------------------------
  // The file stem (build.rb line 9)
  // ---------------------------------------------------------------------------

  /** `base.split('.')[0]`: the text before the first '.'. Ruby drops the
      trailing empty fields of a split, so a base name made of dots only (or an
      empty one) has no field 0 and the expression yields nil, modelled as None. */
  function Stem(base: string): Option<string> {
    var fields := Split(base, '.');
    if fields == [] then None else Some(fields[0])
  }

  /** The stem is nil exactly for a base name of dots only; otherwise it is the
      longest prefix without a '.', ending where the base name ends or at a '.'. */
  lemma StemSpec(base: string)
    ensures Stem(base).None? <==> AllSep(base, '.')
    ensures Stem(base).Some? ==> Avoids(Stem(base).value, '.') && Stem(base).value <= base
    ensures Stem(base).Some? ==>
      |Stem(base).value| == |base| || base[|Stem(base).value|] == '.'
  {
    SplitSpec(base, '.');
    SplitOnAllEmpty(base, '.');
    FirstField(base, '.');
  }

  /** When the first '.' of `base` is at position i, the stem is base[..i]. */
  lemma StemBeforeFirstDot(base: string, i: nat)
    requires exists k :: 0 <= k < |base| && base[k] != '.'
    requires i <= |base| && (i == |base| || base[i] == '.')
    requires forall k :: 0 <= k < i ==> base[k] != '.'
    ensures Stem(base) == Some(base[..i])
  {
    StemSpec(base);
    var s := Stem(base).value;
    assert forall k :: 0 <= k < |s| ==> base[k] == s[k];
    assert |s| == i;
    assert s == base[..i];
  }

  /** The stem of a listed path, as line 9 computes it. */
  function FileStem(path: string): Option<string> {
    Stem(Basename(path))
  }

  /** A file name the glob `*.png` matches: it ends in ".png", does not start
      with a '.' (the glob skips dot files) and is a single path component. */
  predicate MatchesPngGlob(name: string) {
    && |name| >= 4
    && name[|name| - 4..] == ".png"
    && name[0] != '.'
    && Avoids(name, '/')
  }

  /** Every path the glob lists has a non-empty stem that stops before ".png". */
  lemma GlobbedPathStem(name: string)
    requires MatchesPngGlob(name)
    ensures FileStem(SourceDir + "/" + name).Some?
    ensures var stem := FileStem(SourceDir + "/" + name).value;
      0 < |stem| <= |name| - 4 && stem == name[..|stem|]
  {
    BasenameOfChild(SourceDir, name);
    var i := IndexOf(name, '.');
    assert name[|name| - 4] == '.';
    assert i <= |name| - 4;
    StemBeforeFirstDot(name, i);
  }

  /** So no path of a glob listing reaches the nil-stem `NoMethodError` of
      line 11. */
  lemma GlobListingHasStems(names: seq<string>)
    requires forall i :: 0 <= i < |names| ==> MatchesPngGlob(names[i])
    ensures forall i :: 0 <= i < |names| ==> FileStem(SourceDir + "/" + names[i]).Some?
  {
    forall i | 0 <= i < |names| ensures FileStem(SourceDir + "/" + names[i]).Some? {
      GlobbedPathStem(names[i]);
    }
  }


  /** The stems of the documented examples: a name with several dots keeps only
      the text before the first one. */
  lemma StemExamples(a: string, b: string)
    requires a == "sample-template-one.png" && b == "a.b.png"
    ensures Stem(a) == Some("sample-template-one")
    ensures Stem(b) == Some("a")
  {
    assert a[0] != '.' && b[0] != '.';
    StemBeforeFirstDot(a, 19);
    assert a[..19] == "sample-template-one";
    StemBeforeFirstDot(b, 1);
    assert b[..1] == "a";
  }

  // ---------------------------------------------------------------------------
  // The display name (build.rb line 11)
  // ---------------------------------------------------------------------------

  /** The capitalized words of the stem, hyphens counting as spaces. */
  function NameWords(stem: string): seq<string> {
    CapitalizeAll(Words(Gsub(stem, '-', ' ')))
  }

  /** `stem.gsub("-", " ").split.map(&:capitalize).join(' ')` */
  function DisplayName(stem: string): string {
    Join(NameWords(stem), ' ')
  }

  lemma NameWordsShape(stem: string)
    ensures forall i :: 0 <= i < |NameWords(stem)| ==>
      IsCapitalized(NameWords(stem)[i]) && NoSpace(NameWords(stem)[i]) && Avoids(NameWords(stem)[i], '-')
  {
    WordsAvoid(Gsub(stem, '-', ' '), '-');
  }

  /** No character of a join is `c` unless `c` is the separator or in a part. */
  lemma {:induction false} JoinAvoids(parts: seq<string>, sep: char, c: char)
    requires c != sep
    requires forall i :: 0 <= i < |parts| ==> Avoids(parts[i], c)
    ensures Avoids(Join(parts, sep), c)
  {
    if |parts| > 1 {
      JoinAvoids(parts[1..], sep, c);
    }
  }

  /** The name has no hyphen, is single-spaced, and is exactly its words, each
      capitalized, rejoined with one space. */
  lemma DisplayNameShape(stem: string)
    ensures Avoids(DisplayName(stem), '-')
    ensures SingleSpaced(DisplayName(stem))
    ensures Words(DisplayName(stem)) == NameWords(stem)
    ensures forall i :: 0 <= i < |Words(DisplayName(stem))| ==> IsCapitalized(Words(DisplayName(stem))[i])
    ensures DisplayName(stem) == "" || SplitOn(DisplayName(stem), ' ') == Words(DisplayName(stem))
  {
    var cs := NameWords(stem);
    NameWordsShape(stem);
    JoinAvoids(cs, ' ', '-');
    JoinSingleSpaced(cs);
    WordsOfJoin(cs);
    JoinEmpty(cs, ' ');
    if |cs| > 0 {
      forall i | 0 <= i < |cs| ensures Avoids(cs[i], ' ') {
        assert NoSpace(cs[i]);
      }
      SplitOnJoin(cs, ' ');
    }
  }

  /** A hyphen separates words: the name's words around a hyphen are the words
      of the text before it followed by those of the text after it. */
  lemma NameWordsAtHyphen(a: string, b: string)
    ensures NameWords(a + ['-'] + b) == NameWords(a) + NameWords(b)
  {
    var ga := Gsub(a, '-', ' ');
    var gb := Gsub(b, '-', ' ');
    GsubAppend(a + ['-'], b, '-', ' ');
    GsubAppend(a, ['-'], '-', ' ');
    assert Gsub(['-'], '-', ' ') == [' '];
    WordsSplitAt(ga, ' ', gb);
    var wa := Words(ga);
    var wb := Words(gb);
    assert CapitalizeAll(wa + wb) == CapitalizeAll(wa) + CapitalizeAll(wb);
  }

  /** A leading hyphen adds no word. */
  lemma NameWordsAfterHyphen(b: string)
    ensures NameWords(['-'] + b) == NameWords(b)
  {
    NameWordsAtHyphen([], b);
    assert [] + ['-'] + b == ['-'] + b;
    assert Gsub([], '-', ' ') == [];
    assert Words([]) == [];
    assert CapitalizeAll([]) == [];
  }

  /** Consecutive hyphens collapse: a doubled hyphen gives the same name as a
      single one. */
  lemma DisplayNameCollapsesHyphens(a: string, b: string)
    ensures DisplayName(a + ['-', '-'] + b) == DisplayName(a + ['-'] + b)
  {
    var hb := ['-'] + b;
    var x := a + ['-', '-'] + b;
    var y := a + ['-'] + b;
    assert x == a + ['-'] + hb;
    NameWordsAtHyphen(a, hb);
    NameWordsAfterHyphen(b);
    NameWordsAtHyphen(a, b);
    assert NameWords(x) == NameWords(y);
  }

  /** The name keeps the stem's words, hyphens counting as spaces, letter for
      letter: only their case changes. */
  lemma DisplayNameKeepsWords(stem: string)
    ensures var ws := Words(Gsub(stem, '-', ' '));
      var ns := Words(DisplayName(stem));
      |ns| == |ws|
      && (forall i :: 0 <= i < |ws| ==> |ns[i]| == |ws[i]|)
      && (forall i, k :: 0 <= i < |ws| && 0 <= k < |ws[i]| ==> Lower(ns[i][k]) == Lower(ws[i][k]))
  {
    var ws := Words(Gsub(stem, '-', ' '));
    DisplayNameShape(stem);
    var ns := Words(DisplayName(stem));
    assert ns == CapitalizeAll(ws);
    forall i | 0 <= i < |ws| ensures ns[i] == Capitalize(ws[i]) {
    }
  }

  /** Deriving a name from a derived name returns it unchanged. */
  lemma DisplayNameIdempotent(stem: string)
    ensures DisplayName(DisplayName(stem)) == DisplayName(stem)
  {
    var n := DisplayName(stem);
    DisplayNameShape(stem);
    assert Gsub(n, '-', ' ') == n;
    var ws := Words(n);
    forall i | 0 <= i < |ws| ensures Capitalize(ws[i]) == ws[i] {
      CapitalizeCapitalized(ws[i]);
    }
    assert CapitalizeAll(ws) == ws;
  }


  // ---------------------------------------------------------------------------
  // Records and the loop that collects them (build.rb lines 7-17)
  // ---------------------------------------------------------------------------

  /** The record literal of lines 10-16 for one stem. */
  function EntryFor(stem: string): Entry {
    Entry(DisplayName(stem), stem, IconCode, Landscape, Categories)
  }

  /** What every record satisfies: its name is derived from its file name, the
      file name has no '.', and the other three fields are the constants. */
  predicate WellFormed(e: Entry) {
    && e.name == DisplayName(e.filename)
    && Avoids(e.filename, '.')
    && e.iconCode == IconCode
    && e.landscape == "false"
    && e.categories == ["Custom"]
  }

  /** The loop ends either with all records, or at the first path whose stem is
      nil, where Ruby raises (NoMethodError on `gsub`) and the run stops. */
  datatype BuildOutcome = Built(entries: seq<Entry>) | Crashed(at: nat)

  /** `e` is the record line 10 builds for `path`. */
  predicate RecordOf(e: Entry, path: string) {
    FileStem(path).Some? && WellFormed(e) && e.filename == FileStem(path).value
  }

  /** The loop body for one path: its record, or None where line 11 would call
      `gsub` on nil. */
  function EntryOf(path: string): Option<Entry> {
    match FileStem(path)
    case None => None
    case Some(stem) => Some(EntryFor(stem))
  }

  /** A path has a record exactly when it has a stem, and that record is
      well formed and named after the stem. */
  lemma EntryOfSpec(path: string)
    ensures EntryOf(path).Some? <==> FileStem(path).Some?
    ensures EntryOf(path).Some? ==> RecordOf(EntryOf(path).value, path)
  {
    if FileStem(path).Some? {
      StemSpec(Basename(path));
    }
  }

  /** What the loop has produced after the given paths, `step` being its body
      for one path: the records so far, or the position where it stopped. */
  function Collect(paths: seq<string>, step: string -> Option<Entry>): BuildOutcome
    decreases |paths|
  {
    if paths == [] then Built([])
    else
      match Collect(paths[..|paths| - 1], step)
      case Crashed(at) => Crashed(at)
      case Built(entries) =>
        match step(paths[|paths| - 1])
        case None => Crashed(|paths| - 1)
        case Some(e) => Built(entries + [e])
  }

  lemma {:induction false} CollectLength(paths: seq<string>, step: string -> Option<Entry>)
    ensures Collect(paths, step).Built? ==> |Collect(paths, step).entries| == |paths|
    ensures Collect(paths, step).Crashed? ==> Collect(paths, step).at < |paths|
    decreases |paths|
  {
    if paths != [] {
      CollectLength(paths[..|paths| - 1], step);
    }
  }

  /** Path j got its record, or the loop stopped before or at it. */
  lemma {:induction false} CollectAt(paths: seq<string>, step: string -> Option<Entry>, j: nat)
    requires j < |paths|
    ensures Collect(paths, step).Built? ==>
      |Collect(paths, step).entries| == |paths| && step(paths[j]) == Some(Collect(paths, step).entries[j])
    ensures Collect(paths, step).Crashed? && j < Collect(paths, step).at ==> step(paths[j]).Some?
    ensures Collect(paths, step).Crashed? && j == Collect(paths, step).at ==> step(paths[j]).None?
    decreases |paths|
  {
    var init := paths[..|paths| - 1];
    CollectLength(init, step);
    if j < |init| {
      CollectAt(init, step, j);
      assert init[j] == paths[j];
    }
  }

  /** One record per path, in order, when the step succeeds on every path;
      otherwise the run stops at the first path where it fails. */
  lemma CollectSpec(paths: seq<string>, step: string -> Option<Entry>)
    ensures Collect(paths, step).Built? <==> forall i :: 0 <= i < |paths| ==> step(paths[i]).Some?
    ensures Collect(paths, step).Crashed? ==>
      Collect(paths, step).at < |paths| && step(paths[Collect(paths, step).at]).None?
    ensures Collect(paths, step).Crashed? ==>
      forall j :: 0 <= j < Collect(paths, step).at ==> step(paths[j]).Some?
    ensures Collect(paths, step).Built? ==> |Collect(paths, step).entries| == |paths|
    ensures Collect(paths, step).Built? ==>
      forall i :: 0 <= i < |paths| ==> step(paths[i]) == Some(Collect(paths, step).entries[i])
  {
    CollectLength(paths, step);
    forall j | 0 <= j < |paths|
      ensures Collect(paths, step).Built? ==> step(paths[j]) == Some(Collect(paths, step).entries[j])
      ensures Collect(paths, step).Crashed? && j < Collect(paths, step).at ==> step(paths[j]).Some?
      ensures Collect(paths, step).Crashed? && j == Collect(paths, step).at ==> step(paths[j]).None?
    {
      CollectAt(paths, step, j);
    }
  }

  /** Once the loop has stopped, later paths change nothing. */
  lemma {:induction false} CollectStops(paths: seq<string>, step: string -> Option<Entry>, k: nat)
    requires k <= |paths|
    requires Collect(paths[..k], step).Crashed?
    ensures Collect(paths, step) == Collect(paths[..k], step)
    decreases |paths| - k
  {
    if k < |paths| {
      var next := paths[..k + 1];
      assert next[..k] == paths[..k];
      assert Collect(next, step) == Collect(paths[..k], step);
      CollectStops(paths, step, k + 1);
    } else {
      assert paths[..k] == paths;
    }
  }

  /** The loop of lines 7-17, `config_entries = []; files.each { |file|
      config_entries << ... }`, with `step` standing for its body. */
  method CollectEntries(paths: seq<string>, step: string -> Option<Entry>) returns (r: BuildOutcome)
    ensures r == Collect(paths, step)
  {
    var configEntries: seq<Entry> := [];
    var i := 0;
    while i < |paths|
      invariant 0 <= i <= |paths|
      invariant Collect(paths[..i], step) == Built(configEntries)
    {
      var entry := step(paths[i]);
      assert paths[..i + 1][..i] == paths[..i];
      if entry.None? {
        assert Collect(paths[..i + 1], step) == Crashed(i);
        CollectStops(paths, step, i + 1);
        return Crashed(i);
      }
      configEntries := configEntries + [entry.value];
      i := i + 1;
    }
    assert paths[..i] == paths;
    return Built(configEntries);
  }

  /** Every record the loop builds is well formed and belongs to its path. */
  lemma BuiltRecords(paths: seq<string>, entries: seq<Entry>)
    requires |entries| == |paths|
    requires forall i :: 0 <= i < |paths| ==> EntryOf(paths[i]) == Some(entries[i])
    ensures forall i :: 0 <= i < |paths| ==> RecordOf(entries[i], paths[i])
  {
    forall i | 0 <= i < |paths| ensures RecordOf(entries[i], paths[i]) {
      EntryOfSpec(paths[i]);
    }
  }

  /** The loop completes on every glob listing, with one record per file: by
      the contract of `Run`, such a listing is always written out. */
  lemma GlobListingBuilds(names: seq<string>, paths: seq<string>)
    requires |paths| == |names|
    requires forall i :: 0 <= i < |names| ==>
      MatchesPngGlob(names[i]) && paths[i] == SourceDir + "/" + names[i]
    ensures Collect(paths, EntryOf).Built?
    ensures |Collect(paths, EntryOf).entries| == |names|
  {
    GlobListingHasStems(names);
    forall i | 0 <= i < |paths| ensures EntryOf(paths[i]).Some? {
      EntryOfSpec(paths[i]);
    }
    CollectSpec(paths, EntryOf);
  }

  // ---------------------------------------------------------------------------
  // The output text (build.rb line 20)
  // ---------------------------------------------------------------------------

  /** `config_entries.join("\n")`, each record rendered by `render` (Ruby's
      Hash#to_s, whose exact text is not modelled). */
  function ConfigText(entries: seq<Entry>, render: Entry -> string): string {
    Join(seq(|entries|, i requires 0 <= i < |entries| => render(entries[i])), '\n')
  }

  /** No records give the empty text; N records whose renderings hold no line
      break give N - 1 line breaks, and splitting on them recovers the records. */
  lemma ConfigTextFraming(entries: seq<Entry>, render: Entry -> string)
    ensures |entries| == 0 ==> ConfigText(entries, render) == ""
    ensures |entries| >= 1 && (forall i :: 0 <= i < |entries| ==> Avoids(render(entries[i]), '\n')) ==>
      && multiset(ConfigText(entries, render))['\n'] == |entries| - 1
      && |SplitOn(ConfigText(entries, render), '\n')| == |entries|
      && forall i :: 0 <= i < |entries| ==> SplitOn(ConfigText(entries, render), '\n')[i] == render(entries[i])
  {
    var rs := seq(|entries|, i requires 0 <= i < |entries| => render(entries[i]));
    if |entries| >= 1 && (forall i :: 0 <= i < |entries| ==> Avoids(render(entries[i]), '\n')) {
      JoinSeparatorCount(rs, '\n');
      SplitOnJoin(rs, '\n');
    }
  }

  datatype RunOutcome = Written(text: string) | Aborted(at: nat)

  /** The whole script on a given listing: build the records, then the text. */
  method Run(paths: seq<string>, render: Entry -> string) returns (r: RunOutcome)
    ensures r.Written? <==> Collect(paths, EntryOf).Built?
    ensures r.Aborted? ==> r.at == Collect(paths, EntryOf).at
    ensures r.Written? ==> r.text == ConfigText(Collect(paths, EntryOf).entries, render)
  {
    var built := CollectEntries(paths, EntryOf);
    match built
    case Crashed(at) =>
      r := Aborted(at);
    case Built(entries) =>
      r := Written(ConfigText(entries, render));
  }
}
