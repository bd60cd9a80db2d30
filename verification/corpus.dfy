/**
 * The corpus merge of scripts/ingestion/process_corpus.py: the ingested
 * files are read in a fixed order, titles and descriptions are cleaned,
 * records whose url was already seen are dropped (first occurrence wins) and
 * records whose cleaned title is empty are dropped.
 *
 * HTML stripping (`BeautifulSoup(text).get_text(separator=" ")`) is an
 * abstract function `getText`; the whitespace normalisation after it is
 * modelled character by character and proved equal to joining the words of
 * the text with single spaces.
 */
module Corpus {
  import opened Models
  import opened Text

  // ---------------------------------------------------------------------
  // Whitespace normalisation: `re.sub(r'\s+', ' ', text).strip()`
  // ---------------------------------------------------------------------

  /** Every whitespace character is a plain space and no two are adjacent. */
  predicate SingleSpaced(s: string) {
    && (forall i :: 0 <= i < |s| && IsSpace(s[i]) ==> s[i] == ' ')
    && (forall i, j :: 0 <= i < |s| && j == i + 1 < |s| ==> !(IsSpace(s[i]) && IsSpace(s[j])))
  }

  /** No whitespace at either end. */
  predicate Trimmed(s: string) {
    |s| > 0 ==> !IsSpace(s[0]) && !IsSpace(s[|s| - 1])
  }

  /** The non-whitespace characters of `s`, in order. */
  function Visible(s: string): string {
    if |s| == 0 then ""
    else (if IsSpace(s[0]) then "" else [s[0]]) + Visible(s[1..])
  }

  /** `re.sub(r'\s+', ' ', s)`: each maximal run of whitespace becomes one
      space. */
  function Collapse(s: string): string
    decreases |s|
  {
    if |s| == 0 then ""
    else if IsSpace(s[0]) then " " + Collapse(LStrip(s[1..]))
    else [s[0]] + Collapse(s[1..])
  }

  /** `Collapse` leaves no run of whitespace longer than one plain space,
      and starts with whitespace exactly when its input does. */
  lemma {:induction false} CollapseSingleSpaced(s: string)
    ensures SingleSpaced(Collapse(s))
    ensures (|Collapse(s)| > 0 && IsSpace(Collapse(s)[0])) <==> (|s| > 0 && IsSpace(s[0]))
    decreases |s|
  {
    if |s| > 0 {
      var rest := if IsSpace(s[0]) then LStrip(s[1..]) else s[1..];
      CollapseSingleSpaced(rest);
      var r := Collapse(s);
      var c := Collapse(rest);
      assert r == [r[0]] + c;
      forall i, j | 0 <= i < |r| && j == i + 1 < |r|
        ensures !(IsSpace(r[i]) && IsSpace(r[j]))
      {
        if i > 0 {
          assert r[i] == c[i - 1] && r[j] == c[j - 1];
        } else if IsSpace(s[0]) {
          assert |rest| > 0 ==> !IsSpace(rest[0]);
          assert r[j] == c[0];
        } else {
          assert r[i] == s[0];
        }
      }
      forall i | 0 <= i < |r| && IsSpace(r[i])
        ensures r[i] == ' '
      {
        if i > 0 {
          assert r[i] == c[i - 1];
        }
      }
    }
  }

  /** The normalisation `clean_text` applies after HTML stripping. */
  function NormalizeSpace(s: string): (r: string)
    ensures SingleSpaced(r) && Trimmed(r)
  {
    CollapseSingleSpaced(s);
    StripKeepsSingleSpaced(Collapse(s));
    Strip(Collapse(s))
  }

  lemma StripKeepsSingleSpaced(c: string)
    requires SingleSpaced(c)
    ensures SingleSpaced(Strip(c))
  {
    SliceSingleSpaced(c, StripFrom(c), StripTo(c));
  }

  lemma SliceSingleSpaced(s: string, i: int, j: int)
    requires 0 <= i <= j <= |s|
    requires SingleSpaced(s)
    ensures SingleSpaced(s[i..j])
  {
    forall p | 0 <= p < j - i && IsSpace(s[i..j][p])
      ensures s[i..j][p] == ' ' && (p + 1 < j - i ==> !IsSpace(s[i..j][p + 1]))
    {
      assert s[i..j][p] == s[i + p];
      if p + 1 < j - i {
        assert s[i..j][p + 1] == s[i + p + 1];
      }
    }
  }

  lemma {:induction false} VisibleAppend(a: string, b: string)
    ensures Visible(a + b) == Visible(a) + Visible(b)
    decreases |a|
  {
    if |a| == 0 {
      assert a + b == b;
    } else {
      assert (a + b)[1..] == a[1..] + b;
      VisibleAppend(a[1..], b);
    }
  }

  lemma {:induction false} VisibleOfSpaces(s: string)
    ensures Visible(s) == "" <==> AllSpace(s)
    decreases |s|
  {
    if |s| > 0 {
      VisibleOfSpaces(s[1..]);
      assert forall i :: 1 <= i < |s| ==> s[i] == s[1..][i - 1];
    }
  }

  lemma {:induction false} LStripKeepsVisible(s: string)
    ensures Visible(LStrip(s)) == Visible(s)
    decreases |s|
  {
    if |s| > 0 && IsSpace(s[0]) {
      LStripKeepsVisible(s[1..]);
    }
  }

  lemma {:induction false} RStripKeepsVisible(s: string)
    ensures Visible(RStrip(s)) == Visible(s)
    decreases |s|
  {
    if |s| > 0 && IsSpace(s[|s| - 1]) {
      var t := s[..|s| - 1];
      RStripKeepsVisible(t);
      assert s == t + [s[|s| - 1]];
      VisibleAppend(t, [s[|s| - 1]]);
    }
  }

  /** Collapsing runs of whitespace keeps every other character, in order. */
  lemma {:induction false} CollapseKeepsVisible(s: string)
    ensures Visible(Collapse(s)) == Visible(s)
    decreases |s|
  {
    if |s| > 0 {
      if IsSpace(s[0]) {
        var t := LStrip(s[1..]);
        CollapseKeepsVisible(t);
        LStripKeepsVisible(s[1..]);
        VisibleAppend(" ", Collapse(t));
        assert (" " + Collapse(t))[1..] == Collapse(t);
      } else {
        CollapseKeepsVisible(s[1..]);
        VisibleAppend([s[0]], Collapse(s[1..]));
        assert ([s[0]] + Collapse(s[1..]))[1..] == Collapse(s[1..]);
      }
    }
  }

  /** Normalisation keeps every non-whitespace character, in order: only
      whitespace is removed or replaced. */
  lemma NormalizeKeepsVisible(s: string)
    ensures Visible(NormalizeSpace(s)) == Visible(s)
  {
    var c := Collapse(s);
    StripKeepsVisible(c);
    CollapseKeepsVisible(s);
  }

  lemma StripKeepsVisible(c: string)
    ensures Visible(Strip(c)) == Visible(c)
  {
    assert Strip(c) == LStrip(RStrip(c));
    RStripKeepsVisible(c);
    LStripKeepsVisible(RStrip(c));
  }

  /** Normalisation gives the empty string exactly for all-whitespace text. */
  lemma NormalizeEmpty(s: string)
    ensures NormalizeSpace(s) == "" <==> AllSpace(s)
  {
    var r := NormalizeSpace(s);
    NormalizeKeepsVisible(s);
    VisibleOfSpaces(s);
    if |r| > 0 {
      VisibleOfTrimmed(r);
    }
  }

  /** A non-empty trimmed string has a visible first character. */
  lemma VisibleOfTrimmed(r: string)
    requires |r| > 0 && Trimmed(r)
    ensures Visible(r) != ""
  {
    assert r == [r[0]] + r[1..];
    VisibleAppend([r[0]], r[1..]);
    assert Visible([r[0]]) == [r[0]];
  }

  lemma {:induction false} CollapseOfSingleSpaced(s: string)
    requires SingleSpaced(s)
    ensures Collapse(s) == s
    decreases |s|
  {
    if |s| > 0 {
      var t := s[1..];
      assert s == [s[0]] + t;
      SliceSingleSpaced(s, 1, |s|);
      CollapseOfSingleSpaced(t);
      if IsSpace(s[0]) {
        assert s[0] == ' ';
        assert |t| > 0 ==> t[0] == s[1] && !IsSpace(t[0]);
        LStripOfUnpadded(t);
        assert Collapse(s) == " " + Collapse(LStrip(t));
      } else {
        assert Collapse(s) == [s[0]] + Collapse(t);
      }
    }
  }

  lemma LStripOfUnpadded(s: string)
    requires |s| > 0 ==> !IsSpace(s[0])
    ensures LStrip(s) == s
  {
  }

  lemma StripOfTrimmed(s: string)
    requires Trimmed(s)
    ensures Strip(s) == s
  {
  }

  /** Normalising normalised text changes nothing. */
  lemma NormalizeIdempotent(s: string)
    ensures NormalizeSpace(NormalizeSpace(s)) == NormalizeSpace(s)
  {
    var r := NormalizeSpace(s);
    CollapseOfSingleSpaced(r);
    StripOfTrimmed(r);
  }

  // ---------------------------------------------------------------------
  // Reference: the words of a text, joined by single spaces
  // ---------------------------------------------------------------------

  /** A word: non-empty and free of whitespace. */
  predicate IsWord(w: string) {
    |w| > 0 && forall i :: 0 <= i < |w| ==> !IsSpace(w[i])
  }

  /** The length of the run of non-whitespace at the start of `t`. */
  function WordLen(t: string): (w: nat)
    ensures w <= |t|
    ensures w < |t| ==> IsSpace(t[w])
    ensures |t| > 0 && !IsSpace(t[0]) ==> w > 0
    decreases |t|
  {
    if |t| == 0 || IsSpace(t[0]) then 0 else 1 + WordLen(t[1..])
  }

  /** Everything before `WordLen(t)` is non-whitespace. */
  lemma {:induction false} WordLenNoSpace(t: string)
    ensures forall i :: 0 <= i < WordLen(t) ==> !IsSpace(t[i])
    decreases |t|
  {
    if WordLen(t) > 0 {
      WordLenNoSpace(t[1..]);
      forall i | 1 <= i < WordLen(t)
        ensures !IsSpace(t[i])
      {
        assert t[i] == t[1..][i - 1];
      }
    }
  }

  /** Python's `s.split()`: the maximal runs of non-whitespace, in order. */
  function Words(s: string): seq<string>
    decreases |s|
  {
    var t := LStrip(s);
    if |t| == 0 then []
    else
      var w := WordLen(t);
      [t[..w]] + Words(t[w..])
  }

  /** Every element of `s.split()` is a word. */
  lemma {:induction false} WordsAreWords(s: string)
    ensures AllWords(Words(s))
    decreases |s|
  {
    var t := LStrip(s);
    if |t| > 0 {
      var w := WordLen(t);
      FirstWord(t);
      WordsAreWords(t[w..]);
      assert Words(s) == [t[..w]] + Words(t[w..]);
      ConsWords(t[..w], Words(t[w..]));
    }
  }

  predicate AllWords(ws: seq<string>) {
    forall k :: 0 <= k < |ws| ==> IsWord(ws[k])
  }

  lemma FirstWord(t: string)
    requires |t| > 0 && !IsSpace(t[0])
    ensures IsWord(t[..WordLen(t)])
  {
    WordLenNoSpace(t);
    var w := WordLen(t);
    forall i | 0 <= i < w
      ensures !IsSpace(t[..w][i])
    {
      assert t[..w][i] == t[i];
    }
  }

  lemma ConsWords(x: string, ws: seq<string>)
    requires IsWord(x) && AllWords(ws)
    ensures AllWords([x] + ws)
  {
    forall k | 0 <= k < |ws| + 1
      ensures IsWord(([x] + ws)[k])
    {
      if k > 0 {
        assert ([x] + ws)[k] == ws[k - 1];
      }
    }
  }

  /** `" ".join(ws)` for words has no whitespace at either end. */
  lemma {:induction false} JoinedWordsTrimmed(ws: seq<string>)
    requires AllWords(ws)
    ensures Trimmed(JoinText(ws, " "))
    ensures |ws| > 0 ==> |JoinText(ws, " ")| > 0
  {
    if |ws| > 1 {
      JoinedWordsTrimmed(ws[1..]);
      var rest := JoinText(ws[1..], " ");
      assert JoinText(ws, " ") == ws[0] + " " + rest;
    }
  }

  /** The first word passes through `Collapse` unchanged. */
  lemma {:induction false} CollapseWord(t: string)
    ensures Collapse(t) == t[..WordLen(t)] + Collapse(t[WordLen(t)..])
    decreases |t|
  {
    if WordLen(t) > 0 {
      CollapseWord(t[1..]);
      CollapseWordStep(t);
    } else {
      assert t[..0] == "" && t[0..] == t;
    }
  }

  /** The induction step of `CollapseWord`. */
  lemma CollapseWordStep(t: string)
    requires WordLen(t) > 0
    requires Collapse(t[1..]) == t[1..][..WordLen(t[1..])] + Collapse(t[1..][WordLen(t[1..])..])
    ensures Collapse(t) == t[..WordLen(t)] + Collapse(t[WordLen(t)..])
  {
    var w := WordLen(t);
    var t' := t[1..];
    CollapseCons(t);
    assert WordLen(t') == w - 1 && t'[w - 1..] == t[w..];
    var a := t'[..w - 1];
    SliceCons(t, w);
    Regroup3([t[0]], a, Collapse(t[w..]));
  }

  lemma SliceCons(t: string, w: nat)
    requires 0 < w <= |t|
    ensures t[..w] == [t[0]] + t[1..][..w - 1]
  {
  }

  /** A leading non-whitespace character passes through `Collapse`. */
  lemma CollapseCons(t: string)
    requires |t| > 0 && !IsSpace(t[0])
    ensures Collapse(t) == [t[0]] + Collapse(t[1..])
  {
  }

  /** `" "` when `t` ends in whitespace, else `""`. */
  function Trail(t: string): (r: string)
    ensures AllSpace(r) && |r| <= 1
  {
    if |t| > 0 && IsSpace(t[|t| - 1]) then " " else ""
  }

  /** A text that starts with a word splits into that word and the words
      of what follows it. */
  lemma WordsOfUnpadded(t: string)
    requires |t| > 0 && !IsSpace(t[0])
    ensures Words(t) == [t[..WordLen(t)]] + Words(t[WordLen(t)..])
  {
    LStripOfUnpadded(t);
  }

  /** A text that starts with whitespace has the words of what follows the
      whitespace, and collapses to one space before it. */
  lemma SpaceLed(r: string)
    requires |r| > 0 && IsSpace(r[0])
    ensures Words(r) == Words(LStrip(r))
    ensures Collapse(r) == " " + Collapse(LStrip(r))
    ensures LStrip(r) == LStrip(r[1..])
  {
    var u := LStrip(r);
    assert |u| > 0 ==> !IsSpace(u[0]);
    LStripOfUnpadded(u);
  }

  /** The words of a non-empty list, joined, start with the first word. */
  lemma JoinCons(w: string, ws: seq<string>)
    requires |ws| > 0
    ensures JoinText([w] + ws, " ") == w + " " + JoinText(ws, " ")
  {
    assert ([w] + ws)[1..] == ws;
  }

  lemma Regroup(a: string, b: string, c: string, d: string)
    ensures a + (b + (c + d)) == a + b + c + d
  {
  }

  /** For text that does not start with whitespace, `Collapse` gives its
      words joined by single spaces, plus one space if it ends in
      whitespace. */
  lemma {:induction false} CollapseUnpadded(t: string)
    requires |t| > 0 ==> !IsSpace(t[0])
    ensures Collapse(t) == JoinText(Words(t), " ") + Trail(t)
    decreases |t|
  {
    if |t| > 0 {
      var w := WordLen(t);
      if w == |t| {
        SingleWord(t);
      } else {
        var u := LStrip(t[w..]);
        assert |u| > 0 ==> !IsSpace(u[0]);
        CollapseUnpadded(u);
        NextWord(t, u);
      }
    } else {
      assert Words(t) == [];
    }
  }

  /** A text that is one word collapses to itself. */
  lemma SingleWord(t: string)
    requires |t| > 0 && !IsSpace(t[0]) && WordLen(t) == |t|
    ensures Collapse(t) == JoinText(Words(t), " ") + Trail(t)
  {
    OneWord(t);
    JoinOne(t);
    assert t + "" == t;
  }

  lemma JoinOne(w: string)
    ensures JoinText([w], " ") == w
  {
  }

  lemma OneWord(t: string)
    requires |t| > 0 && !IsSpace(t[0]) && WordLen(t) == |t|
    ensures Words(t) == [t] && Collapse(t) == t && Trail(t) == ""
  {
    assert t[..|t|] == t && t[|t|..] == "";
    NothingEmpty();
    WordsOfUnpadded(t);
    CollapseWord(t);
  }

  /** The empty text has no words and collapses to itself. */
  lemma NothingEmpty()
    ensures Words("") == [] && Collapse("") == ""
  {
  }

  /** The induction step of `CollapseUnpadded`: a word, then whitespace,
      then the text `u` for which the claim already holds. */
  lemma NextWord(t: string, u: string)
    requires |t| > 0 && !IsSpace(t[0]) && WordLen(t) < |t|
    requires u == LStrip(t[WordLen(t)..])
    requires Collapse(u) == JoinText(Words(u), " ") + Trail(u)
    ensures Collapse(t) == JoinText(Words(t), " ") + Trail(t)
  {
    var word := t[..WordLen(t)];
    WordThenSpace(t, u);
    if |u| == 0 {
      NothingEmpty();
      assert u == "";
      assert Words(t) == [word] by {
        assert [word] + [] == [word];
      }
      assert JoinText([word], " ") == word;
      assert Collapse(t) == word + " " by {
        assert Collapse(u) == "";
        assert " " + "" == " ";
      }
    } else {
      var j := JoinText(Words(u), " ");
      JoinCons(word, Words(u));
      assert JoinText(Words(t), " ") == word + " " + j;
      Regroup(word, " ", j, Trail(u));
    }
  }

  /** Splitting off the first word and the whitespace after it. */
  lemma WordThenSpace(t: string, u: string)
    requires |t| > 0 && !IsSpace(t[0]) && WordLen(t) < |t|
    requires u == LStrip(t[WordLen(t)..])
    ensures Collapse(t) == t[..WordLen(t)] + (" " + Collapse(u))
    ensures Words(t) == [t[..WordLen(t)]] + Words(u)
    ensures Trail(t) == if |u| == 0 then " " else Trail(u)
  {
    var w := WordLen(t);
    var rest := t[w..];
    WordsOfUnpadded(t);
    CollapseWord(t);
    SpaceLed(rest);
    TrailOfRest(t, w, u);
  }

  lemma TrailOfRest(t: string, w: nat, u: string)
    requires w < |t| && IsSpace(t[w])
    requires u == LStrip(t[w..])
    ensures Trail(t) == if |u| == 0 then " " else Trail(u)
  {
    var rest := t[w..];
    assert t[|t| - 1] == rest[|rest| - 1];
    if |u| == 0 {
      assert rest[..|rest|] == rest;
    } else {
      assert rest[|rest| - 1] == u[|u| - 1];
    }
  }

  /** Whitespace appended to a text disappears under `rstrip`. */
  lemma {:induction false} RStripSpaces(x: string, b: string)
    requires AllSpace(b)
    ensures RStrip(x + b) == RStrip(x)
    decreases |b|
  {
    if |b| == 0 {
      assert x + b == x;
    } else {
      assert (x + b)[..|x + b| - 1] == x + b[..|b| - 1];
      RStripSpaces(x, b[..|b| - 1]);
    }
  }

  /** Whitespace prepended to a text disappears under `lstrip`. */
  lemma {:induction false} LStripSpaces(a: string, x: string)
    requires AllSpace(a)
    ensures LStrip(a + x) == LStrip(x)
    decreases |a|
  {
    if |a| == 0 {
      assert a + x == x;
    } else {
      assert (a + x)[1..] == a[1..] + x;
      LStripSpaces(a[1..], x);
    }
  }

  /** Stripping whitespace padding off a trimmed text gives the text back. */
  lemma StripPadding(a: string, j: string, b: string)
    requires AllSpace(a) && AllSpace(b) && Trimmed(j)
    ensures Strip(a + j + b) == j
  {
    assert Strip(a + j + b) == LStrip(RStrip(a + j + b));
    RStripSpaces(a + j, b);
    if |j| > 0 {
      assert RStrip(a + j) == a + j;
      LStripSpaces(a, j);
      LStripOfUnpadded(j);
    } else {
      assert a + j == a;
    }
  }

  /** `re.sub(r'\s+', ' ', s).strip()` is `" ".join(s.split())`: the words
      of `s`, in order, separated by exactly one space. */
  lemma NormalizeIsJoinedWords(s: string)
    ensures NormalizeSpace(s) == JoinText(Words(s), " ")
  {
    var t := LStrip(s);
    var lead := Lead(s);
    var j := JoinText(Words(s), " ");
    LeadingSpace(s);
    CollapseUnpadded(t);
    WordsAreWords(s);
    JoinedWordsTrimmed(Words(s));
    Regroup3(lead, j, Trail(t));
    StripPadding(lead, j, Trail(t));
  }

  /** `" "` when `s` starts with whitespace, else `""`. */
  function Lead(s: string): (r: string)
    ensures AllSpace(r) && |r| <= 1
  {
    if |s| > 0 && IsSpace(s[0]) then " " else ""
  }

  /** Leading whitespace collapses to one space and holds no words. */
  lemma LeadingSpace(s: string)
    ensures Collapse(s) == Lead(s) + Collapse(LStrip(s))
    ensures Words(LStrip(s)) == Words(s)
    ensures |LStrip(s)| > 0 ==> !IsSpace(LStrip(s)[0])
  {
    var t := LStrip(s);
    LStripOfUnpadded(t);
    if |s| > 0 && IsSpace(s[0]) {
      SpaceLed(s);
    } else {
      LStripOfUnpadded(s);
      assert "" + Collapse(s) == Collapse(s);
    }
  }

  lemma Regroup3(a: string, b: string, c: string)
    ensures a + (b + c) == a + b + c
  {
  }

  // ---------------------------------------------------------------------
  // Records and `clean_text`
  // ---------------------------------------------------------------------

  /** One ingested JSON record: the three keys the merge reads, and every
      other key with its JSON value kept as text. */
  datatype Record = Record(url: Field, title: Field, description: Field, other: map<string, string>)

  /** `clean_text(text)`: `""` for a missing, `null` or empty value, else the
      HTML-stripped text with its whitespace normalised. */
  function CleanText(text: Field, getText: string -> string): (r: string)
    ensures SingleSpaced(r) && Trimmed(r)
    ensures !(text.Str? && text.text != "") ==> r == ""
    ensures text.Str? && text.text != "" ==> Visible(r) == Visible(getText(text.text))
  {
    match text
    case Str(t) =>
      if t == "" then "" else
        NormalizeKeepsVisible(getText(t));
        NormalizeSpace(getText(t))
    case _ => ""
  }

  /** A cleaned title is empty exactly when the text is absent, empty, or
      strips to nothing but whitespace. */
  lemma CleanTextEmpty(text: Field, getText: string -> string)
    ensures CleanText(text, getText) == "" <==>
              !(text.Str? && text.text != "") || AllSpace(getText(text.text))
  {
    if text.Str? && text.text != "" {
      NormalizeEmpty(getText(text.text));
    }
  }

  /** A present, non-empty value cleans to the words of its HTML-stripped
      text separated by single spaces: `" ".join(get_text(t).split())`. */
  lemma CleanTextIsJoinedWords(text: Field, getText: string -> string)
    requires text.Str? && text.text != ""
    ensures CleanText(text, getText) == JoinText(Words(getText(text.text)), " ")
  {
    NormalizeIsJoinedWords(getText(text.text));
  }

  /** `record.get('url', '')` when it is truthy. */
  function UrlKey(r: Record): Option<string> {
    if r.url.Str? && r.url.text != "" then Some(r.url.text) else None
  }

  /** The record with `title` and `description` replaced by their cleaned
      text; every other key is untouched. */
  function Cleaned(r: Record, getText: string -> string): (c: Record)
    ensures c.url == r.url && c.other == r.other && UrlKey(c) == UrlKey(r)
    ensures c.title == Str(CleanText(r.title, getText))
    ensures c.description == Str(CleanText(r.description, getText))
  {
    r.(title := Str(CleanText(r.title, getText)),
       description := Str(CleanText(r.description, getText)))
  }

  /** A cleaned record's title and description are normalised text. */
  lemma CleanedFieldsNormalized(r: Record, getText: string -> string)
    ensures var c := Cleaned(r, getText);
            && SingleSpaced(c.title.text) && Trimmed(c.title.text)
            && SingleSpaced(c.description.text) && Trimmed(c.description.text)
  {
  }

  // ---------------------------------------------------------------------
  // The merge, declaratively
  // ---------------------------------------------------------------------

  /** Record `i` reaches the output when its url is empty or differs from the
      url of every EARLIER record (kept or not), and its cleaned title is
      non-empty. */
  predicate Kept(all: seq<Record>, i: int, getText: string -> string)
    requires 0 <= i < |all|
  {
    && (UrlKey(all[i]).None? || forall j :: 0 <= j < i ==> UrlKey(all[j]) != UrlKey(all[i]))
    && CleanText(all[i].title, getText) != ""
  }

  /** The decision for every record. */
  function KeepFlags(all: seq<Record>, getText: string -> string): (flags: seq<bool>)
    ensures |flags| == |all|
    ensures forall i :: 0 <= i < |all| ==> flags[i] == Kept(all, i, getText)
  {
    seq(|all|, i requires 0 <= i < |all| => Kept(all, i, getText))
  }

  /** Every record with its title and description cleaned. */
  function CleanedAll(all: seq<Record>, getText: string -> string): (c: seq<Record>)
    ensures |c| == |all|
    ensures forall i :: 0 <= i < |all| ==> c[i] == Cleaned(all[i], getText)
  {
    seq(|all|, i requires 0 <= i < |all| => Cleaned(all[i], getText))
  }

  /** The output of the merge over the first `n` records: the cleaned forms
      of the kept ones, in input order. */
  function MergedPrefix(all: seq<Record>, n: nat, getText: string -> string): seq<Record>
    requires n <= |all|
  {
    Select(CleanedAll(all, getText), KeepFlags(all, getText), n)
  }

  /** The positions among the first `n` records that reach the output. */
  function KeptIndices(all: seq<Record>, n: nat, getText: string -> string): (idx: seq<nat>)
    requires n <= |all|
    ensures Increasing(idx)
    ensures forall p :: 0 <= p < |idx| ==> idx[p] < n && Kept(all, idx[p], getText)
    ensures forall i :: 0 <= i < n && Kept(all, i, getText) ==> i in idx
  {
    SelectedIndicesSound(KeepFlags(all, getText), n);
    SelectedIndices(KeepFlags(all, getText), n)
  }

  /** The merged output is the cleaned records at the kept positions. */
  lemma MergedAtKeptIndices(all: seq<Record>, n: nat, getText: string -> string)
    requires n <= |all|
    ensures |MergedPrefix(all, n, getText)| == |KeptIndices(all, n, getText)|
    ensures forall p :: 0 <= p < |KeptIndices(all, n, getText)| ==>
              MergedPrefix(all, n, getText)[p] == Cleaned(all[KeptIndices(all, n, getText)[p]], getText)
  {
    SelectAtIndices(CleanedAll(all, getText), KeepFlags(all, getText), n);
  }

  // ---------------------------------------------------------------------
  // Order-preserving selection
  // ---------------------------------------------------------------------

  /** The elements among the first `n` of `xs` whose flag is set, in order. */
  function Select<T>(xs: seq<T>, keep: seq<bool>, n: nat): seq<T>
    requires |keep| == |xs| && n <= |xs|
  {
    if n == 0 then [] else Select(xs, keep, n - 1) + (if keep[n - 1] then [xs[n - 1]] else [])
  }

  /** The positions among the first `n` whose flag is set, increasing. */
  function SelectedIndices(keep: seq<bool>, n: nat): (idx: seq<nat>)
    requires n <= |keep|
    ensures forall p :: 0 <= p < |idx| ==> idx[p] < n
  {
    if n == 0 then [] else
      var prev := SelectedIndices(keep, n - 1);
      if keep[n - 1] then prev + [n - 1] else prev
  }

  /** The selected positions increase, are all flagged, and include every
      flagged position. */
  lemma {:induction false} SelectedIndicesSound(keep: seq<bool>, n: nat)
    requires n <= |keep|
    ensures var idx := SelectedIndices(keep, n);
            && Increasing(idx)
            && (forall p :: 0 <= p < |idx| ==> keep[idx[p]])
            && (forall i :: 0 <= i < n && keep[i] ==> i in idx)
  {
    if n > 0 {
      SelectedIndicesSound(keep, n - 1);
    }
  }

  /** Selection picks exactly the elements at the selected positions. */
  lemma {:induction false} SelectAtIndices<T>(xs: seq<T>, keep: seq<bool>, n: nat)
    requires |keep| == |xs| && n <= |xs|
    ensures |Select(xs, keep, n)| == |SelectedIndices(keep, n)|
    ensures forall p :: 0 <= p < |SelectedIndices(keep, n)| ==>
              Select(xs, keep, n)[p] == xs[SelectedIndices(keep, n)[p]]
  {
    if n > 0 {
      SelectAtIndices(xs, keep, n - 1);
    }
  }

  predicate NoSharedUrl(out: seq<Record>) {
    forall p, q :: 0 <= p < q < |out| && UrlKey(out[p]).Some? ==> UrlKey(out[p]) != UrlKey(out[q])
  }

  /** No two output records share a non-empty url. */
  lemma MergedUrlsDistinct(all: seq<Record>, getText: string -> string)
    ensures NoSharedUrl(MergedPrefix(all, |all|, getText))
  {
    var idx := KeptIndices(all, |all|, getText);
    var out := MergedPrefix(all, |all|, getText);
    MergedAtKeptIndices(all, |all|, getText);
    forall p, q | 0 <= p < q < |out| && UrlKey(out[p]).Some?
      ensures UrlKey(out[p]) != UrlKey(out[q])
    {
      assert idx[p] < idx[q] && Kept(all, idx[q], getText);
    }
  }

  /** Every output record has a non-empty cleaned title and is the cleaned
      form of an input record, with url and other keys untouched. */
  lemma MergedRecordsValid(all: seq<Record>, getText: string -> string)
    ensures var out := MergedPrefix(all, |all|, getText);
            forall p :: 0 <= p < |out| ==>
              && out[p].title.Str? && out[p].title.text != ""
              && exists i :: 0 <= i < |all| && out[p] == Cleaned(all[i], getText)
  {
    var idx := KeptIndices(all, |all|, getText);
    MergedAtKeptIndices(all, |all|, getText);
  }

  /** The url is marked as seen before the title is validated: a record
      dropped for its empty title still suppresses every later record with
      the same url. */
  lemma DroppedTitleStillSuppresses(all: seq<Record>, j: nat, i: nat, getText: string -> string)
    requires j < i < |all|
    requires UrlKey(all[j]).Some? && UrlKey(all[j]) == UrlKey(all[i])
    ensures !Kept(all, j, getText) || !Kept(all, i, getText)
    ensures !Kept(all, i, getText)
  {
  }

  /** Records with an empty url are never de-duplicated: such a record is
      kept exactly when its cleaned title is non-empty. */
  lemma EmptyUrlKeptByTitle(all: seq<Record>, i: nat, getText: string -> string)
    requires i < |all| && UrlKey(all[i]).None?
    ensures Kept(all, i, getText) <==> CleanText(all[i].title, getText) != ""
  {
  }

  /** The first record with a given url wins when its title survives. */
  lemma FirstOccurrenceWins(all: seq<Record>, i: nat, getText: string -> string)
    requires i < |all| && CleanText(all[i].title, getText) != ""
    requires forall j :: 0 <= j < i ==> UrlKey(all[j]) != UrlKey(all[i])
    ensures Cleaned(all[i], getText) in MergedPrefix(all, |all|, getText)
  {
    var idx := KeptIndices(all, |all|, getText);
    MergedAtKeptIndices(all, |all|, getText);
    assert Kept(all, i, getText);
    var p :| 0 <= p < |idx| && idx[p] == i;
    assert MergedPrefix(all, |all|, getText)[p] == Cleaned(all[i], getText);
  }

  // ---------------------------------------------------------------------
  // The merge loop of `process_corpus`
  // ---------------------------------------------------------------------

  /** The non-empty urls among the first `n` records. */
  ghost function SeenUrls(all: seq<Record>, n: nat): set<string>
    requires n <= |all|
  {
    if n == 0 then {}
    else SeenUrls(all, n - 1) + (if UrlKey(all[n - 1]).Some? then {UrlKey(all[n - 1]).value} else {})
  }

  lemma SeenUrlsStep(all: seq<Record>, i: nat)
    requires i < |all|
    ensures SeenUrls(all, i + 1) ==
              SeenUrls(all, i) + (if UrlKey(all[i]).Some? then {UrlKey(all[i]).value} else {})
  {
  }

  /** A url has been seen exactly when an earlier record carries it. */
  lemma {:induction false} SeenUrlsMember(all: seq<Record>, i: nat, u: string)
    requires i <= |all|
    ensures u in SeenUrls(all, i) <==> exists j :: 0 <= j < i && UrlKey(all[j]) == Some(u)
  {
    if i > 0 {
      SeenUrlsMember(all, i - 1, u);
      if UrlKey(all[i - 1]) == Some(u) {
        assert u in SeenUrls(all, i);
      }
    }
  }

  /** The scan's test for record `i`: its url is not yet among the seen ones
      and its cleaned title is non-empty. */
  lemma KeptByScan(all: seq<Record>, i: nat, getText: string -> string)
    requires i < |all|
    ensures Kept(all, i, getText) <==>
              (UrlKey(all[i]).None? || UrlKey(all[i]).value !in SeenUrls(all, i))
              && CleanText(all[i].title, getText) != ""
  {
    if UrlKey(all[i]).Some? {
      SeenUrlsMember(all, i, UrlKey(all[i]).value);
    }
  }

  lemma MergedStep(all: seq<Record>, i: nat, getText: string -> string)
    requires i < |all|
    ensures MergedPrefix(all, i + 1, getText) ==
              MergedPrefix(all, i, getText) + (if Kept(all, i, getText) then [Cleaned(all[i], getText)] else [])
  {
  }

  /** One iteration of the scan in terms of the loop's two branches: a
      record whose url was seen changes nothing; any other record marks its
      url as seen and is appended when its cleaned title is non-empty. */
  lemma ScanStep(all: seq<Record>, i: nat, getText: string -> string)
    requires i < |all|
    ensures var url := UrlKey(all[i]);
            url.Some? && url.value in SeenUrls(all, i) ==>
              && SeenUrls(all, i + 1) == SeenUrls(all, i)
              && MergedPrefix(all, i + 1, getText) == MergedPrefix(all, i, getText)
    ensures var url := UrlKey(all[i]);
            !(url.Some? && url.value in SeenUrls(all, i)) ==>
              && SeenUrls(all, i + 1) == SeenUrls(all, i) + (if url.Some? then {url.value} else {})
              && MergedPrefix(all, i + 1, getText) ==
                   MergedPrefix(all, i, getText)
                   + (if Cleaned(all[i], getText).title.text != "" then [Cleaned(all[i], getText)] else [])
  {
    KeptByScan(all, i, getText);
    MergedStep(all, i, getText);
    SeenUrlsStep(all, i);
  }

  /** The body of the `for record in data` loop for record `i`. */
  method ScanRecord(all: seq<Record>, i: nat, getText: string -> string,
                    seen: set<string>, out: seq<Record>)
    returns (seen': set<string>, out': seq<Record>)
    requires i < |all|
    requires seen == SeenUrls(all, i) && out == MergedPrefix(all, i, getText)
    ensures seen' == SeenUrls(all, i + 1) && out' == MergedPrefix(all, i + 1, getText)
  {
    ScanStep(all, i, getText);
    seen', out' := seen, out;
    var record := all[i];
    var url := UrlKey(record);
    if url.Some? && url.value in seen {
      // already seen: skipped before any cleaning
    } else {
      if url.Some? {
        seen' := seen + {url.value};
      }
      var cleaned := Cleaned(record, getText);
      if cleaned.title.text != "" {
        out' := out + [cleaned];
      }
    }
  }

  /** The `for record in data` loop over all records in file order, with the
      `seen_urls` set. */
  method MergeRecords(all: seq<Record>, getText: string -> string) returns (out: seq<Record>)
    ensures out == MergedPrefix(all, |all|, getText)
    ensures NoSharedUrl(out)
  {
    out := [];
    var seen: set<string> := {};
    var i := 0;
    while i < |all|
      invariant 0 <= i <= |all|
      invariant seen == SeenUrls(all, i)
      invariant out == MergedPrefix(all, i, getText)
    {
      seen, out := ScanRecord(all, i, getText, seen, out);
      i := i + 1;
    }
    MergedUrlsDistinct(all, getText);
  }

  // ---------------------------------------------------------------------
  // Source files
  // ---------------------------------------------------------------------

  /** `SOURCES`: the ingested files, in the order they are merged. */
  const Sources: seq<string> := [
    "coursera_ingested.json", "edx_ingested.json", "feedspot_ingested.json",
    "youtube_ingested.json", "manual_ingested.json", "urls_ingested.json"]

  /** The records of the named files that exist, file after file; a missing
      file is skipped. `files` maps each existing file name to its parsed
      record list. */
  function Gather(files: map<string, seq<Record>>, names: seq<string>): seq<Record> {
    if |names| == 0 then []
    else (if names[0] in files then files[names[0]] else []) + Gather(files, names[1..])
  }

  /** Reading the names in two runs reads the two runs one after the other. */
  lemma {:induction false} GatherAppend(files: map<string, seq<Record>>, a: seq<string>, b: seq<string>)
    ensures Gather(files, a + b) == Gather(files, a) + Gather(files, b)
  {
    if |a| == 0 {
      assert a + b == b;
    } else {
      assert (a + b)[1..] == a[1..] + b;
      GatherAppend(files, a[1..], b);
    }
  }

  /** Only the listed files are read, and a missing file contributes
      nothing. */
  lemma {:induction false} GatherReadsListedOnly(files: map<string, seq<Record>>, files': map<string, seq<Record>>, names: seq<string>)
    requires forall k :: 0 <= k < |names| ==>
               (names[k] in files <==> names[k] in files') &&
               (names[k] in files ==> files[names[k]] == files'[names[k]])
    ensures Gather(files, names) == Gather(files', names)
  {
    if |names| > 0 {
      GatherReadsListedOnly(files, files', names[1..]);
    }
  }

  lemma {:induction false} GatherNoFiles(names: seq<string>)
    ensures Gather(map[], names) == []
  {
    if |names| > 0 {
      GatherNoFiles(names[1..]);
    }
  }

  /** `process_corpus()`: the merge over the existing source files in
      `SOURCES` order. */
  method ProcessCorpus(files: map<string, seq<Record>>, getText: string -> string) returns (out: seq<Record>)
    ensures var all := Gather(files, Sources);
            out == MergedPrefix(all, |all|, getText)
    ensures NoSharedUrl(out)
    ensures (forall k :: 0 <= k < |Sources| ==> Sources[k] !in files) ==> out == []
  {
    var all := Gather(files, Sources);
    if forall k :: 0 <= k < |Sources| ==> Sources[k] !in files {
      GatherReadsListedOnly(files, map[], Sources);
      GatherNoFiles(Sources);
    }
    out := MergeRecords(all, getText);
  }
}
