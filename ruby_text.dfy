/** The handful of Ruby String and Array operations that build.rb chains together,
    restricted to ASCII: String#split with a one-character separator other than ' ',
    String#split with no argument (awk-style whitespace splitting), Array#join
    with a one-character separator, String#gsub of one character by another and
    String#capitalize. */
module RubyText {

  /** The characters Ruby's whitespace split treats as separators. */
  predicate IsSpace(c: char) {
    c == ' ' || c == '\t' || c == '\n' || c == '\U{000B}' || c == '\U{000C}' || c == '\r'
  }

  predicate NoSpace(w: string) {
    forall k :: 0 <= k < |w| ==> !IsSpace(w[k])
  }

  /** `c` does not occur in `s`. */
  predicate Avoids(s: string, c: char) {
    forall k :: 0 <= k < |s| ==> s[k] != c
  }

  predicate IsLowerAscii(c: char) { 'a' <= c <= 'z' }
  predicate IsUpperAscii(c: char) { 'A' <= c <= 'Z' }

  // ---------------------------------------------------------------------------
  // Splitting on, and joining with, one separator character
  // ---------------------------------------------------------------------------

  /** Position of the first `c` in `s`, or |s| when there is none. */
  function IndexOf(s: string, c: char): (i: nat)
    ensures i <= |s|
    ensures forall k :: 0 <= k < i ==> s[k] != c
    ensures i < |s| ==> s[i] == c
  {
    if s == [] then 0
    else if s[0] == c then 0
    else 1 + IndexOf(s[1..], c)
  }

  /** Every field between separators, empty ones included (also trailing ones). */
  function SplitOn(s: string, sep: char): (fields: seq<string>)
    ensures |fields| >= 1
    ensures forall i :: 0 <= i < |fields| ==> Avoids(fields[i], sep)
    decreases |s|
  {
    var i := IndexOf(s, sep);
    if i == |s| then [s] else [s[..i]] + SplitOn(s[i + 1..], sep)
  }

  /** The first field is the text before the first separator. */
  lemma FirstField(s: string, sep: char)
    ensures SplitOn(s, sep)[0] == s[..IndexOf(s, sep)]
  {
  }

  /** Array#join with a one-character separator. */
  function Join(parts: seq<string>, sep: char): (s: string)
  {
    if |parts| == 0 then ""
    else if |parts| == 1 then parts[0]
    else parts[0] + [sep] + Join(parts[1..], sep)
  }

  /** Joining the fields of a split gives back the original text. */
  lemma {:induction false} JoinSplitOn(s: string, sep: char)
    ensures Join(SplitOn(s, sep), sep) == s
    decreases |s|
  {
    var i := IndexOf(s, sep);
    if i < |s| {
      var tail := s[i + 1..];
      var fields := SplitOn(s, sep);
      assert fields == [s[..i]] + SplitOn(tail, sep);
      assert fields[1..] == SplitOn(tail, sep);
      JoinSplitOn(tail, sep);
      assert Join(fields, sep) == s[..i] + [sep] + tail;
      assert s == s[..i] + [sep] + tail;
    }
  }

  /** Splitting a join of separator-free parts gives back the parts. */
  lemma {:induction false} SplitOnJoin(parts: seq<string>, sep: char)
    requires |parts| >= 1
    requires forall i :: 0 <= i < |parts| ==> Avoids(parts[i], sep)
    ensures SplitOn(Join(parts, sep), sep) == parts
  {
    if |parts| == 1 {
      assert IndexOf(parts[0], sep) == |parts[0]|;
    } else {
      var rest := Join(parts[1..], sep);
      var s := Join(parts, sep);
      assert s == parts[0] + ([sep] + rest);
      IndexOfAfterFree(parts[0], [sep] + rest, sep);
      var i := IndexOf(s, sep);
      assert i == |parts[0]|;
      assert SplitOn(s, sep) == [s[..i]] + SplitOn(s[i + 1..], sep);
      assert s[..i] == parts[0];
      assert s[i + 1..] == rest by {
        assert |s| == i + 1 + |rest|;
        assert forall k :: 0 <= k < |rest| ==> s[i + 1 + k] == rest[k];
      }
      SplitOnJoin(parts[1..], sep);
      assert parts == [parts[0]] + parts[1..];
    }
  }

  /** `c` is found right after a `c`-free prefix. */
  lemma IndexOfAfterFree(a: string, b: string, c: char)
    requires Avoids(a, c)
    requires |b| > 0 && b[0] == c
    ensures IndexOf(a + b, c) == |a|
  {
    assert forall k :: 0 <= k < |a| ==> (a + b)[k] == a[k];
    assert (a + b)[|a|] == c;
  }

  /** A join of separator-free parts holds exactly |parts| - 1 separators. */
  lemma {:induction false} JoinSeparatorCount(parts: seq<string>, sep: char)
    requires |parts| >= 1
    requires forall i :: 0 <= i < |parts| ==> Avoids(parts[i], sep)
    ensures multiset(Join(parts, sep))[sep] == |parts| - 1
  {
    assert multiset(parts[0])[sep] == 0;
    if |parts| > 1 {
      JoinSeparatorCount(parts[1..], sep);
      assert multiset(parts[0] + [sep] + Join(parts[1..], sep))
          == multiset(parts[0]) + multiset([sep]) + multiset(Join(parts[1..], sep));
    }
  }

  /** A join is empty only when there is nothing, or one empty part, to join. */
  lemma JoinEmpty(parts: seq<string>, sep: char)
    ensures Join(parts, sep) == "" <==> |parts| == 0 || (|parts| == 1 && parts[0] == "")
  {
    if |parts| > 1 {
      assert Join(parts, sep)[|parts[0]|] == sep;
    }
  }

  /** String#split(sep) for a separator other than ' ' (Ruby splits on
      whitespace when the pattern is a single space): the fields with the
      trailing empty ones removed. */
  function Split(s: string, sep: char): seq<string> {
    DropTrailingEmpty(SplitOn(s, sep))
  }

  function DropTrailingEmpty(fields: seq<string>): seq<string> {
    if |fields| == 0 then []
    else if fields[|fields| - 1] == "" then DropTrailingEmpty(fields[..|fields| - 1])
    else fields
  }

  /** Dropping trailing empty fields keeps a prefix that is empty or ends in a
      non-empty field, and everything dropped is empty. */
  lemma {:induction false} DropTrailingEmptySpec(fields: seq<string>)
    ensures |DropTrailingEmpty(fields)| <= |fields|
    ensures DropTrailingEmpty(fields) == fields[..|DropTrailingEmpty(fields)|]
    ensures |DropTrailingEmpty(fields)| > 0 ==> fields[|DropTrailingEmpty(fields)| - 1] != ""
    ensures forall i :: |DropTrailingEmpty(fields)| <= i < |fields| ==> fields[i] == ""
  {
    if |fields| > 0 && fields[|fields| - 1] == "" {
      var init := fields[..|fields| - 1];
      DropTrailingEmptySpec(init);
      assert forall i :: 0 <= i < |init| ==> init[i] == fields[i];
    }
  }

  /** The fields Ruby's split keeps: all fields up to the last non-empty one. */
  lemma SplitSpec(s: string, sep: char)
    ensures |Split(s, sep)| <= |SplitOn(s, sep)|
    ensures Split(s, sep) == SplitOn(s, sep)[..|Split(s, sep)|]
    ensures |Split(s, sep)| > 0 ==> Split(s, sep)[|Split(s, sep)| - 1] != ""
    ensures forall i :: |Split(s, sep)| <= i < |SplitOn(s, sep)| ==> SplitOn(s, sep)[i] == ""
  {
    DropTrailingEmptySpec(SplitOn(s, sep));
  }

  predicate AllEmpty(fields: seq<string>) {
    forall i :: 0 <= i < |fields| ==> fields[i] == ""
  }

  predicate AllSep(s: string, sep: char) {
    forall k :: 0 <= k < |s| ==> s[k] == sep
  }

  /** Every field of a split is empty exactly when the text is nothing but separators. */
  lemma {:induction false} SplitOnAllEmpty(s: string, sep: char)
    ensures AllEmpty(SplitOn(s, sep)) <==> AllSep(s, sep)
    decreases |s|
  {
    var fields := SplitOn(s, sep);
    var i := IndexOf(s, sep);
    if i == |s| {
      assert fields == [s];
      if s != [] {
        assert s[0] != sep;
        assert fields[0] != "";
      }
    } else if i > 0 {
      assert s[0] != sep;
      assert fields[0] == s[..i];
      assert fields[0] != "";
    } else {
      var tail := s[1..];
      var rest := SplitOn(tail, sep);
      assert fields == [""] + rest;
      SplitOnAllEmpty(tail, sep);
      assert AllEmpty(fields) <==> AllEmpty(rest) by {
        assert forall j :: 0 <= j < |rest| ==> fields[j + 1] == rest[j];
      }
      assert AllSep(s, sep) <==> AllSep(tail, sep) by {
        assert forall k :: 0 <= k < |tail| ==> tail[k] == s[k + 1];
      }
    }
  }

  // ---------------------------------------------------------------------------
  // Whitespace splitting (String#split with no argument)
  // ---------------------------------------------------------------------------

  /** Length of the leading run of non-whitespace characters. */
  function WordEnd(s: string): (i: nat)
    ensures i <= |s|
    ensures forall k :: 0 <= k < i ==> !IsSpace(s[k])
    ensures i < |s| ==> IsSpace(s[i])
  {
    if s == [] then 0
    else if IsSpace(s[0]) then 0
    else 1 + WordEnd(s[1..])
  }

  /** The maximal whitespace-free runs of `s`, in order: leading, trailing and
      repeated whitespace never yields an empty word. */
  function Words(s: string): (ws: seq<string>)
    ensures forall i :: 0 <= i < |ws| ==> |ws[i]| > 0 && NoSpace(ws[i])
    decreases |s|
  {
    if s == [] then []
    else if IsSpace(s[0]) then Words(s[1..])
    else
      var n := WordEnd(s);
      [s[..n]] + Words(s[n..])
  }

  /** A character absent from `s` is absent from each of its words. */
  lemma {:induction false} WordsAvoid(s: string, c: char)
    requires Avoids(s, c)
    ensures forall i :: 0 <= i < |Words(s)| ==> Avoids(Words(s)[i], c)
    decreases |s|
  {
    if s != [] {
      if IsSpace(s[0]) {
        WordsAvoid(s[1..], c);
      } else {
        var n := WordEnd(s);
        WordsAvoid(s[n..], c);
        assert Words(s) == [s[..n]] + Words(s[n..]);
      }
    }
  }

  /** The run of a whitespace-free word ends where the word does. */
  lemma WordEndAfterWord(w: string, rest: string)
    requires NoSpace(w)
    requires rest == [] || IsSpace(rest[0])
    ensures WordEnd(w + rest) == |w|
  {
    assert forall k :: 0 <= k < |w| ==> (w + rest)[k] == w[k];
    if rest != [] {
      assert (w + rest)[|w|] == rest[0];
    }
  }

  /** A run that ends inside `a`, or at its end before whitespace or the end of
      the text, ends at the same place when more text follows. */
  lemma WordEndAppend(a: string, rest: string)
    requires WordEnd(a) < |a| || rest == [] || IsSpace(rest[0])
    ensures WordEnd(a + rest) == WordEnd(a)
  {
    var s := a + rest;
    assert forall k :: 0 <= k < |a| ==> s[k] == a[k];
    assert forall k :: 0 <= k < |rest| ==> s[|a| + k] == rest[k];
  }

  /** A whitespace character separates: the words of `a`, a whitespace
      character and `b` are the words of `a` followed by the words of `b`. */
  lemma WordsSplitAt(a: string, c: char, b: string)
    requires IsSpace(c)
    ensures Words(a + [c] + b) == Words(a) + Words(b)
  {
    var t := [c] + b;
    assert a + [c] + b == a + t;
    WordsBeforeSpace(a, t);
    assert t[1..] == b;
  }

  lemma {:induction false} WordsBeforeSpace(a: string, t: string)
    requires |t| > 0 && IsSpace(t[0])
    ensures Words(a + t) == Words(a) + Words(t[1..])
    decreases |a|
  {
    if a == [] {
      assert a + t == t;
    } else if IsSpace(a[0]) {
      assert (a + t)[1..] == a[1..] + t;
      WordsBeforeSpace(a[1..], t);
    } else {
      WordsAfterWord(a, t);
    }
  }

  lemma {:induction false} WordsAfterWord(a: string, t: string)
    requires |t| > 0 && IsSpace(t[0])
    requires |a| > 0 && !IsSpace(a[0])
    ensures Words(a + t) == Words(a) + Words(t[1..])
    decreases |a|, 0
  {
    var s := a + t;
    var n := WordEnd(a);
    WordEndAppend(a, t);
    assert s[..n] == a[..n];
    assert s[n..] == a[n..] + t;
    WordsBeforeSpace(a[n..], t);
  }

  /** A non-empty text without whitespace is one word. */
  lemma WordsOfWord(w: string)
    requires |w| > 0 && NoSpace(w)
    ensures Words(w) == [w]
  {
    WordEndAfterWord(w, []);
    assert w + [] == w;
    assert w[..|w|] == w;
  }

  /** Whitespace-splitting a single-space join of words gives back the words. */
  lemma {:induction false} WordsOfJoin(ws: seq<string>)
    requires forall i :: 0 <= i < |ws| ==> |ws[i]| > 0 && NoSpace(ws[i])
    ensures Words(Join(ws, ' ')) == ws
  {
    if |ws| == 1 {
      var w := ws[0];
      WordEndAfterWord(w, []);
      assert w + [] == w;
      assert Words(w) == [w[..|w|]] + Words(w[|w|..]);
      assert w[|w|..] == [];
    } else if |ws| > 1 {
      var w := ws[0];
      var rest := Join(ws[1..], ' ');
      var s := Join(ws, ' ');
      assert s == w + ([' '] + rest);
      WordEndAfterWord(w, [' '] + rest);
      assert Words(s) == [s[..|w|]] + Words(s[|w|..]);
      assert s[..|w|] == w;
      assert s[|w|..] == [' '] + rest;
      assert Words([' '] + rest) == Words(rest);
      WordsOfJoin(ws[1..]);
      assert ws == [w] + ws[1..];
    }
  }

  /** The characters of `s` other than whitespace, in order. */
  function StripSpaces(s: string): (r: string)
    ensures NoSpace(r)
  {
    if s == [] then []
    else if IsSpace(s[0]) then StripSpaces(s[1..])
    else [s[0]] + StripSpaces(s[1..])
  }

  function Concat(ws: seq<string>): string {
    if ws == [] then [] else ws[0] + Concat(ws[1..])
  }

  lemma {:induction false} StripSpacesAppend(a: string, b: string)
    ensures StripSpaces(a + b) == StripSpaces(a) + StripSpaces(b)
  {
    if a != [] {
      assert (a + b)[1..] == a[1..] + b;
      StripSpacesAppend(a[1..], b);
    } else {
      assert a + b == b;
    }
  }

  lemma {:induction false} StripSpacesOfWord(w: string)
    requires NoSpace(w)
    ensures StripSpaces(w) == w
  {
    if w != [] {
      StripSpacesOfWord(w[1..]);
    }
  }

  /** Whitespace splitting loses nothing but the whitespace: the words, run
      together, are the non-whitespace characters of `s` in their order. */
  lemma {:induction false} WordsKeepText(s: string)
    ensures Concat(Words(s)) == StripSpaces(s)
    decreases |s|
  {
    if s != [] {
      if IsSpace(s[0]) {
        WordsKeepText(s[1..]);
      } else {
        var n := WordEnd(s);
        WordsKeepText(s[n..]);
        assert s == s[..n] + s[n..];
        StripSpacesAppend(s[..n], s[n..]);
        StripSpacesOfWord(s[..n]);
        assert ([s[..n]] + Words(s[n..]))[1..] == Words(s[n..]);
      }
    }
  }

  /** Single spaces only: no leading or trailing space, no two spaces in a row,
      and no whitespace other than ' '. */
  predicate SingleSpaced(s: string) {
    && (|s| > 0 ==> s[0] != ' ' && s[|s| - 1] != ' ')
    && (forall k :: 0 <= k < |s| - 1 && s[k] == ' ' ==> s[k + 1] != ' ')
    && (forall k :: 0 <= k < |s| && IsSpace(s[k]) ==> s[k] == ' ')
  }

  /** A single-space join of whitespace-free, non-empty words is single-spaced. */
  lemma {:induction false} JoinSingleSpaced(ws: seq<string>)
    requires forall i :: 0 <= i < |ws| ==> |ws[i]| > 0 && NoSpace(ws[i])
    ensures SingleSpaced(Join(ws, ' '))
  {
    if |ws| > 1 {
      JoinSingleSpaced(ws[1..]);
      var w := ws[0];
      var rest := Join(ws[1..], ' ');
      var s := w + [' '] + rest;
      JoinEmpty(ws[1..], ' ');
      assert |rest| > 0;
      assert forall k :: 0 <= k < |w| ==> s[k] == w[k];
      assert forall k :: |w| < k < |s| ==> s[k] == rest[k - |w| - 1];
      assert s[|w| + 1] == rest[0];
      assert s[|s| - 1] == rest[|rest| - 1];
    }
  }

  // ---------------------------------------------------------------------------
  // gsub of one character, and ASCII capitalize
  // ---------------------------------------------------------------------------

  /** String#gsub(from, to) with one-character strings. */
  function Gsub(s: string, from: char, to: char): (r: string)
    ensures |r| == |s|
    ensures from != to ==> Avoids(r, from)
    ensures forall k :: 0 <= k < |s| && s[k] != from ==> r[k] == s[k]
    ensures forall k :: 0 <= k < |s| && s[k] == from ==> r[k] == to
  {
    seq(|s|, k requires 0 <= k < |s| => if s[k] == from then to else s[k])
  }

  /** Replacement works character by character, so it distributes over `+`. */
  lemma GsubAppend(x: string, y: string, from: char, to: char)
    ensures Gsub(x + y, from, to) == Gsub(x, from, to) + Gsub(y, from, to)
  {
    var l := Gsub(x + y, from, to);
    var r := Gsub(x, from, to) + Gsub(y, from, to);
    assert forall k :: 0 <= k < |x| ==> (x + y)[k] == x[k] && l[k] == r[k];
    assert forall k :: |x| <= k < |l| ==> (x + y)[k] == y[k - |x|] && l[k] == r[k];
  }

  function Upper(c: char): (u: char)
    ensures !IsLowerAscii(u)
    ensures IsSpace(u) <==> IsSpace(c)
  {
    if IsLowerAscii(c) then (c as int - 32) as char else c
  }

  function Lower(c: char): (l: char)
    ensures !IsUpperAscii(l)
    ensures IsSpace(l) <==> IsSpace(c)
  {
    if IsUpperAscii(c) then (c as int + 32) as char else c
  }

  /** Case mapping only changes the case of a letter. */
  lemma CaseMapping()
    ensures forall c :: Lower(Upper(c)) == Lower(c)
    ensures forall c :: Lower(Lower(c)) == Lower(c)
    ensures forall c :: !IsLowerAscii(c) ==> Upper(c) == c
    ensures forall c :: !IsUpperAscii(c) ==> Lower(c) == c
  {
  }

  /** A non-empty word whose first character is not a lower-case letter and
      whose other characters are not upper-case letters. */
  predicate IsCapitalized(w: string) {
    && |w| > 0
    && !IsLowerAscii(w[0])
    && (forall k :: 1 <= k < |w| ==> !IsUpperAscii(w[k]))
  }

  /** String#capitalize on ASCII: the first character upper-cased, the rest
      lower-cased; letters keep their identity, only their case changes. */
  function Capitalize(w: string): (r: string)
    ensures |r| == |w|
    ensures |w| > 0 ==> IsCapitalized(r)
    ensures forall k :: 0 <= k < |w| ==> Lower(r[k]) == Lower(w[k])
    ensures NoSpace(w) ==> NoSpace(r)
  {
    CaseMapping();
    if w == [] then []
    else [Upper(w[0])] + seq(|w| - 1, k requires 0 <= k < |w| - 1 => Lower(w[k + 1]))
  }

  /** Capitalizing an already capitalized word changes nothing. */
  lemma CapitalizeCapitalized(w: string)
    requires IsCapitalized(w)
    ensures Capitalize(w) == w
  {
    CaseMapping();
    var r := Capitalize(w);
    forall k | 0 <= k < |w| ensures r[k] == w[k] {
    }
  }

  /** A character that is not a letter is absent from a capitalized word when
      it is absent from the word. */
  lemma CapitalizeAvoids(w: string, c: char)
    requires !IsLowerAscii(c) && !IsUpperAscii(c) && Avoids(w, c)
    ensures Avoids(Capitalize(w), c)
  {
    var r := Capitalize(w);
    forall k | 0 <= k < |r| ensures r[k] != c {
      assert Lower(r[k]) == Lower(w[k]);
      if IsUpperAscii(w[k]) {
        assert IsLowerAscii(Lower(w[k]));
      } else {
        assert Lower(w[k]) == w[k];
      }
    }
  }

  /** Array#map(&:capitalize): word for word, each word capitalized; a word
      without whitespace or without a given non-letter keeps that property. */
  function CapitalizeAll(ws: seq<string>): (rs: seq<string>)
    ensures |rs| == |ws|
    ensures forall i :: 0 <= i < |ws| ==> rs[i] == Capitalize(ws[i])
    ensures forall i :: 0 <= i < |ws| && |ws[i]| > 0 ==> IsCapitalized(rs[i])
    ensures forall i :: 0 <= i < |ws| && NoSpace(ws[i]) ==> NoSpace(rs[i])
    ensures forall i, c :: 0 <= i < |ws| && !IsLowerAscii(c) && !IsUpperAscii(c) && Avoids(ws[i], c) ==>
      Avoids(rs[i], c)
  {
    var rs := seq(|ws|, i requires 0 <= i < |ws| => Capitalize(ws[i]));
    assert forall i, c :: 0 <= i < |ws| && !IsLowerAscii(c) && !IsUpperAscii(c) && Avoids(ws[i], c) ==>
      Avoids(rs[i], c) by {
      forall i, c | 0 <= i < |ws| && !IsLowerAscii(c) && !IsUpperAscii(c) && Avoids(ws[i], c)
        ensures Avoids(rs[i], c)
      {
        CapitalizeAvoids(ws[i], c);
      }
    }
    rs
  }
}
