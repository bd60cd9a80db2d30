/**
 * The two filename derivations of the roadmap scripts:
 *
 * - scripts/generate_roadmaps.py turns a skill into a safe file stem: every
 *   character that is neither alphanumeric nor a space becomes `_`, the
 *   result is stripped and lower-cased, spaces become `_`, and a loop
 *   replaces `__` by `_` until none is left;
 * - scripts/setup/create_initial_manual_data.py lower-cases the skill,
 *   turns spaces into `_` and `&` into `and`.
 *
 * `isalnum` and `lower` are modelled on ASCII.
 */
module Filenames {
  import opened Text

  const JsonSuffix: string := ".json"

  // ---------------------------------------------------------------------
  // scripts/generate_roadmaps.py
  // ---------------------------------------------------------------------

  /** `c if c.isalnum() or c == ' ' else '_'`. */
  function MapChar(c: char): char {
    if IsAlnum(c) || c == ' ' then c else '_'
  }

  function MapChars(s: string): (r: string)
    ensures |r| == |s|
    ensures forall i :: 0 <= i < |s| ==> r[i] == MapChar(s[i])
  {
    seq(|s|, i requires 0 <= i < |s| => MapChar(s[i]))
  }

  /** The name before the `__` loop:
      `"".join(...).strip().lower().replace(' ', '_')`. */
  function Spaced(skill: string): string {
    Replace(Lower(Strip(MapChars(skill))), " ", "_")
  }

  /** `'__' in s`. */
  predicate HasDouble(s: string) {
    exists i :: 0 <= i < |s| - 1 && s[i] == '_' && s[i + 1] == '_'
  }

  /** Every run of underscores shortened to one underscore: the reference
      for what the `__` loop leaves behind. */
  function Squash(s: string): string
    decreases |s|
  {
    if |s| == 0 then ""
    else if |s| >= 2 && s[0] == '_' && s[1] == '_' then Squash(s[1..])
    else [s[0]] + Squash(s[1..])
  }

  /** The safe stem the script writes, stated without the loop. */
  function SafeName(skill: string): string {
    Squash(Spaced(skill))
  }

  /** The first character survives squashing. */
  lemma {:induction false} SquashHead(x: string)
    ensures |Squash(x)| > 0 <==> |x| > 0
    ensures |x| > 0 ==> Squash(x)[0] == x[0]
    decreases |x|
  {
    if |x| >= 2 && x[0] == '_' && x[1] == '_' {
      SquashHead(x[1..]);
    }
  }

  /** Squashing `c` followed by `x` only looks at `c` and the squashed `x`. */
  lemma SquashCons(c: char, x: string)
    ensures Squash([c] + x) ==
              if c == '_' && |Squash(x)| > 0 && Squash(x)[0] == '_' then Squash(x) else [c] + Squash(x)
  {
    SquashHead(x);
    assert ([c] + x)[1..] == x;
  }

  /** One pass of `replace('__', '_')` does not change the squashed name. */
  lemma {:induction false} SquashReplace(s: string)
    ensures Squash(Replace(s, "__", "_")) == Squash(s)
    decreases |s|
  {
    if |s| >= 2 {
      if s[..2] == "__" {
        var t := s[2..];
        SquashReplace(t);
        assert Replace(s, "__", "_") == "_" + Replace(t, "__", "_");
        SquashCons('_', Replace(t, "__", "_"));
        SquashCons('_', t);
        assert s[0] == s[..2][0] && s[1] == s[..2][1];
        assert s[1..] == "_" + t;
        assert Squash(s) == Squash(s[1..]);
      } else {
        SquashReplace(s[1..]);
        assert Replace(s, "__", "_") == [s[0]] + Replace(s[1..], "__", "_");
        SquashCons(s[0], Replace(s[1..], "__", "_"));
        SquashCons(s[0], s[1..]);
        assert s == [s[0]] + s[1..];
      }
    }
  }

  /** A pass of `replace('__', '_')` never lengthens the name and shortens
      it while `__` occurs, so the loop terminates. */
  lemma {:induction false} ReplaceShrinks(s: string)
    ensures |Replace(s, "__", "_")| <= |s|
    ensures HasDouble(s) ==> |Replace(s, "__", "_")| < |s|
    decreases |s|
  {
    if |s| >= 2 {
      if s[..2] == "__" {
        ReplaceShrinks(s[2..]);
      } else {
        ReplaceShrinks(s[1..]);
        if HasDouble(s) {
          var i :| 0 <= i < |s| - 1 && s[i] == '_' && s[i + 1] == '_';
          assert i > 0;
          assert s[1..][i - 1] == '_' && s[1..][i] == '_';
        }
      }
    } else {
      assert !HasDouble(s);
    }
  }

  /** The squashed name has no `__`. */
  lemma {:induction false} SquashNoDouble(s: string)
    ensures !HasDouble(Squash(s))
    decreases |s|
  {
    if |s| > 0 {
      SquashNoDouble(s[1..]);
      SquashCons(s[0], s[1..]);
      assert s == [s[0]] + s[1..];
      var q := Squash(s[1..]);
      if !(s[0] == '_' && |q| > 0 && q[0] == '_') {
        var r := [s[0]] + q;
        forall i | 0 <= i < |r| - 1
          ensures !(r[i] == '_' && r[i + 1] == '_')
        {
          if i > 0 {
            assert r[i] == q[i - 1] && r[i + 1] == q[i];
          }
        }
      }
    }
  }

  /** A name without `__` is its own squash. */
  lemma {:induction false} SquashOfNoDouble(s: string)
    requires !HasDouble(s)
    ensures Squash(s) == s
    decreases |s|
  {
    if |s| > 0 {
      forall i | 0 <= i < |s| - 2
        ensures !(s[1..][i] == '_' && s[1..][i + 1] == '_')
      {
        assert s[1..][i] == s[i + 1] && s[1..][i + 1] == s[i + 2];
      }
      SquashOfNoDouble(s[1..]);
      assert s == [s[0]] + s[1..];
    }
  }

  /** The sanitising expression and the `while '__' in safe_name` loop. */
  method SanitizeSkill(skill: string) returns (safeName: string)
    ensures safeName == SafeName(skill)
    ensures !HasDouble(safeName)
  {
    safeName := Replace(Lower(Strip(MapChars(skill))), " ", "_");
    ghost var start := safeName;
    while HasDouble(safeName)
      invariant Squash(safeName) == Squash(start)
      decreases |safeName|
    {
      ReplaceShrinks(safeName);
      SquashReplace(safeName);
      safeName := Replace(safeName, "__", "_");
    }
    SquashOfNoDouble(safeName);
  }

  /** `f"{safe_name}.json"`. */
  method SkillFilename(skill: string) returns (filename: string)
    ensures filename == SafeName(skill) + JsonSuffix
  {
    var safeName := SanitizeSkill(skill);
    filename := safeName + JsonSuffix;
  }

  /** Characters a safe name is made of: ASCII lower-case letters, digits
      and `_`. */
  predicate SafeChar(c: char) {
    IsAsciiLower(c) || IsAsciiDigit(c) || c == '_'
  }

  lemma {:induction false} SquashChars(s: string, d: char)
    ensures HasChar(Squash(s), d) ==> HasChar(s, d)
    decreases |s|
  {
    if |s| > 0 {
      SquashChars(s[1..], d);
      assert s == [s[0]] + s[1..];
      HasCharConcat([s[0]], s[1..], d);
      HasCharConcat([s[0]], Squash(s[1..]), d);
      assert HasChar([s[0]], d) ==> s[0] == d;
    }
  }

  predicate SafeOrSpace(s: string) {
    forall k :: 0 <= k < |s| ==> SafeChar(s[k]) || s[k] == ' '
  }

  predicate AllSafe(s: string) {
    forall k :: 0 <= k < |s| ==> SafeChar(s[k])
  }

  /** Characters the character map lets through: ASCII letters and digits,
      spaces and `_`. */
  predicate MappedOrSpace(s: string) {
    forall k :: 0 <= k < |s| ==> IsAlnum(s[k]) || s[k] == ' ' || s[k] == '_'
  }

  lemma MapCharsAlphabet(skill: string)
    ensures MappedOrSpace(MapChars(skill))
  {
  }

  lemma StripAlphabet(m: string)
    requires MappedOrSpace(m)
    ensures MappedOrSpace(Strip(m))
  {
    var st := Strip(m);
    var i0 := StripFrom(m);
    forall k | 0 <= k < |st|
      ensures IsAlnum(st[k]) || st[k] == ' ' || st[k] == '_'
    {
      assert st[k] == m[i0 + k];
    }
  }

  lemma LowerAlphabet(st: string)
    requires MappedOrSpace(st)
    ensures SafeOrSpace(Lower(st))
  {
  }

  /** Before the spaces are replaced, the stem holds safe characters and
      spaces only. */
  lemma LoweredAlphabet(skill: string)
    ensures SafeOrSpace(Lower(Strip(MapChars(skill))))
  {
    MapCharsAlphabet(skill);
    StripAlphabet(MapChars(skill));
    LowerAlphabet(Strip(MapChars(skill)));
  }

  /** A character of the stem after the space replacement is safe. */
  lemma ReplacedCharSafe(lo: string, d: char)
    requires SafeOrSpace(lo)
    requires HasChar(Replace(lo, " ", "_"), d)
    ensures SafeChar(d)
  {
    ReplaceCharMembership(lo, ' ', "_", d);
    if d != '_' {
      var p :| 0 <= p < |lo| && lo[p] == d;
    }
  }

  /** Every character of the stem before the loop is safe. */
  lemma SpacedAlphabet(skill: string)
    ensures AllSafe(Spaced(skill))
  {
    var lo := Lower(Strip(MapChars(skill)));
    LoweredAlphabet(skill);
    var r := Spaced(skill);
    forall k | 0 <= k < |r|
      ensures SafeChar(r[k])
    {
      assert HasChar(r, r[k]);
      ReplacedCharSafe(lo, r[k]);
    }
  }

  /** The safe name consists of lower-case ASCII letters, digits and `_`
      only, so it has no spaces, and it has no `__`. */
  lemma SafeNameAlphabet(skill: string)
    ensures AllSafe(SafeName(skill))
    ensures !HasDouble(SafeName(skill))
  {
    var sp := Spaced(skill);
    var r := SafeName(skill);
    SpacedAlphabet(skill);
    SquashNoDouble(sp);
    forall i | 0 <= i < |r|
      ensures SafeChar(r[i])
    {
      SquashChars(sp, r[i]);
      assert HasChar(r, r[i]);
      var p :| 0 <= p < |sp| && sp[p] == r[i];
    }
  }

  lemma MapCharsOfSafe(x: string)
    requires AllSafe(x)
    ensures MapChars(x) == x
  {
    forall p | 0 <= p < |x|
      ensures MapChars(x)[p] == x[p]
    {
      assert SafeChar(x[p]);
    }
  }

  lemma StripOfSafe(x: string)
    requires AllSafe(x)
    ensures Strip(x) == x
  {
    if |x| > 0 {
      assert SafeChar(x[0]) && SafeChar(x[|x| - 1]);
    }
    StripUnpadded(x);
  }

  lemma LowerOfSafe(x: string)
    requires AllSafe(x)
    ensures Lower(x) == x
  {
    forall p | 0 <= p < |x|
      ensures Lower(x)[p] == x[p]
    {
      assert SafeChar(x[p]);
    }
  }

  lemma SafeHasNoSpace(x: string)
    requires AllSafe(x)
    ensures !HasChar(x, ' ')
  {
    forall p | 0 <= p < |x|
      ensures x[p] != ' '
    {
      assert SafeChar(x[p]);
    }
  }

  /** A name made of safe characters goes through the character map,
      `strip`, `lower` and the space replacement unchanged. */
  lemma SpacedOfSafe(x: string)
    requires AllSafe(x)
    ensures Spaced(x) == x
  {
    MapCharsOfSafe(x);
    StripOfSafe(x);
    LowerOfSafe(x);
    SafeHasNoSpace(x);
    ReplaceAbsentChar(x, ' ', "_");
  }

  /** Sanitising a safe name returns it unchanged. */
  lemma SafeNameIdempotent(skill: string)
    ensures SafeName(SafeName(skill)) == SafeName(skill)
  {
    var x := SafeName(skill);
    SafeNameAlphabet(skill);
    SpacedOfSafe(x);
    SquashOfNoDouble(x);
  }

  // ---------------------------------------------------------------------
  // scripts/setup/create_initial_manual_data.py
  // ---------------------------------------------------------------------

  /** `skill.lower().replace(' ', '_').replace('&', 'and') + '.json'`. */
  function ManualFilename(skill: string): string {
    Replace(Replace(Lower(skill), " ", "_"), "&", "and") + JsonSuffix
  }

  /** The manual filename has no space and no `&`, and every other
      character of the lower-cased skill is still in it. */
  lemma ManualFilenameAlphabet(skill: string, d: char)
    ensures !HasChar(ManualFilename(skill), ' ')
    ensures !HasChar(ManualFilename(skill), '&')
    ensures d != ' ' && d != '&' && HasChar(Lower(skill), d) ==> HasChar(ManualFilename(skill), d)
  {
    var a := Replace(Lower(skill), " ", "_");
    var b := Replace(a, "&", "and");
    ReplaceCharMembership(Lower(skill), ' ', "_", ' ');
    ReplaceCharMembership(Lower(skill), ' ', "_", '&');
    ReplaceCharMembership(Lower(skill), ' ', "_", d);
    ReplaceCharMembership(a, '&', "and", ' ');
    ReplaceCharMembership(a, '&', "and", '&');
    ReplaceCharMembership(a, '&', "and", d);
    assert !HasChar("_", ' ') && !HasChar("_", '&');
    assert !HasChar("and", ' ') && !HasChar("and", '&');
    HasCharConcat(b, JsonSuffix, ' ');
    HasCharConcat(b, JsonSuffix, '&');
    HasCharConcat(b, JsonSuffix, d);
    assert !HasChar(JsonSuffix, ' ') && !HasChar(JsonSuffix, '&');
  }

  /** The `skill` values of `ROADMAPS`, in order. */
  const ManualSkills: seq<string> := [
    "React Development", "Docker & Kubernetes", "Digital Illustration", "Screenwriting",
    "Agile Project Management", "SEO Fundamentals", "Introduction to Astrophysics",
    "Molecular Biology Basics", "Sourdough Bread Baking", "Urban Gardening"]

  /** The manual filename of a skill whose lower-cased form is words joined
      by single spaces, none holding `&`. */
  lemma ManualOfWords(skill: string, words: seq<string>)
    requires Lower(skill) == JoinText(words, " ")
    requires forall k :: 0 <= k < |words| ==> !HasChar(words[k], ' ') && !HasChar(words[k], '&')
    ensures ManualFilename(skill) == JoinText(words, "_") + JsonSuffix
  {
    SpacesToUnderscores(skill, words);
    NoAmpersandAfterJoin(words);
    ReplaceAbsentChar(JoinText(words, "_"), '&', "and");
  }

  lemma SpacesToUnderscores(skill: string, words: seq<string>)
    requires Lower(skill) == JoinText(words, " ")
    requires forall k :: 0 <= k < |words| ==> !HasChar(words[k], ' ')
    ensures Replace(Lower(skill), " ", "_") == JoinText(words, "_")
  {
    ReplaceJoined(words, ' ', "_");
  }

  lemma NoAmpersandAfterJoin(words: seq<string>)
    requires forall k :: 0 <= k < |words| ==> !HasChar(words[k], '&')
    ensures !HasChar(JoinText(words, "_"), '&')
  {
    JoinTextChars(words, "_", '&');
    assert !HasChar("_", '&');
  }

  /** Lower-casing `"Docker & Kubernetes"` and replacing its spaces gives
      `docker_&_kubernetes`. */
  lemma DockerUnderscored()
    ensures Replace(Lower("Docker & Kubernetes"), " ", "_") == "docker_&_kubernetes"
  {
    var words := ["docker", "&", "kubernetes"];
    DockerLowered();
    DockerWords();
    SpacesToUnderscores("Docker & Kubernetes", words);
    DockerJoined();
  }

  lemma DockerLowered()
    ensures Lower("Docker & Kubernetes") == "docker & kubernetes"
  {
  }

  lemma DockerWords()
    ensures JoinText(["docker", "&", "kubernetes"], " ") == "docker & kubernetes"
  {
  }

  lemma DockerJoined()
    ensures JoinText(["docker", "&", "kubernetes"], "_") == "docker_&_kubernetes"
  {
  }

  /** The ampersand of `docker_&_kubernetes` is spelled out. */
  lemma DockerSpelledOut()
    ensures Replace("docker_&_kubernetes", "&", "and") == "docker_and_kubernetes"
  {
    var halves := ["docker_", "_kubernetes"];
    DockerHalves();
    ReplaceJoined(halves, '&', "and");
    DockerRejoined();
  }

  lemma DockerHalves()
    ensures JoinText(["docker_", "_kubernetes"], "&") == "docker_&_kubernetes"
  {
  }

  lemma DockerRejoined()
    ensures JoinText(["docker_", "_kubernetes"], "and") == "docker_and_kubernetes"
  {
  }

  /** `"Docker & Kubernetes"` is saved as `docker_and_kubernetes.json`. */
  lemma ManualFilenameExample()
    ensures ManualFilename("Docker & Kubernetes") == "docker_and_kubernetes.json"
  {
    DockerUnderscored();
    DockerSpelledOut();
  }

  /** Lower-casing never produces a space or an ampersand from another
      character. */
  lemma LowerKeeps(s: string, c: char)
    requires c == ' ' || c == '&'
    ensures HasChar(Lower(s), c) ==> HasChar(s, c)
  {
    if HasChar(Lower(s), c) {
      var i :| 0 <= i < |s| && Lower(s)[i] == c;
      assert s[i] == c;
    }
  }

  /** A skill without `&` keeps its length (plus the suffix) and its first
      letter, lower-cased, in its manual filename. */
  lemma ManualFilenameShape(skill: string)
    requires |skill| > 0 && skill[0] != ' '
    requires !HasChar(skill, '&')
    ensures |ManualFilename(skill)| == |skill| + |JsonSuffix|
    ensures ManualFilename(skill)[0] == LowerChar(skill[0])
  {
    var lowered := Lower(skill);
    var spaced := Replace(lowered, " ", "_");
    LowerKeeps(skill, '&');
    ReplaceCharMembership(lowered, ' ', "_", '&');
    assert !HasChar("_", '&');
    ReplaceAbsentChar(spaced, '&', "and");
    ReplaceCharLength(lowered, ' ', '_');
    assert lowered[0] != ' ';
    assert lowered[..1] != " ";
    assert spaced[0] == lowered[0];
  }

  /** Every manual skill but the second has no `&` and starts with a
      letter. */
  lemma ManualSkillShape(i: nat)
    requires i < |ManualSkills| && i != 1
    ensures |ManualFilename(ManualSkills[i])| == |ManualSkills[i]| + |JsonSuffix|
    ensures ManualFilename(ManualSkills[i])[0] == LowerChar(ManualSkills[i][0])
  {
    ManualSkillNoAmpersand(i);
    ManualFilenameShape(ManualSkills[i]);
  }

  lemma ManualSkillNoAmpersand(i: nat)
    requires i < |ManualSkills| && i != 1
    ensures !HasChar(ManualSkills[i], '&')
  {
    if i < 5 {
      ManualSkillNoAmpersandLow(i);
    } else {
      ManualSkillNoAmpersandHigh(i);
    }
  }

  lemma ManualSkillNoAmpersandLow(i: nat)
    requires i < 5 && i != 1
    ensures !HasChar(ManualSkills[i], '&')
  {
    var s := ManualSkills[i];
    forall k | 0 <= k < |s|
      ensures s[k] != '&'
    {
    }
  }

  lemma ManualSkillNoAmpersandHigh(i: nat)
    requires 5 <= i < |ManualSkills|
    ensures !HasChar(ManualSkills[i], '&')
  {
    var s := ManualSkills[i];
    forall k | 0 <= k < |s|
      ensures s[k] != '&'
    {
    }
  }

  /** The length and the first letter of each manual filename. */
  const ManualLengths: seq<int> := [22, 26, 25, 18, 29, 21, 33, 29, 27, 20]
  const ManualInitials: string := "rddsasimsu"

  lemma ManualFilenameKeys(i: nat)
    requires i < |ManualSkills|
    ensures |ManualFilename(ManualSkills[i])| == ManualLengths[i]
    ensures ManualFilename(ManualSkills[i])[0] == ManualInitials[i]
  {
    if i == 1 {
      ManualFilenameExample();
    } else {
      ManualSkillShape(i);
    }
  }

  /** The ten manual skills give ten different filenames, so no file
      overwrites another: the names differ in length or in their first
      letter. */
  lemma ManualFilenamesDistinct()
    ensures forall i, j :: 0 <= i < j < |ManualSkills| ==>
              ManualFilename(ManualSkills[i]) != ManualFilename(ManualSkills[j])
  {
    assert forall i, j :: 0 <= i < j < |ManualLengths| ==>
             ManualLengths[i] != ManualLengths[j] || ManualInitials[i] != ManualInitials[j];
    forall i, j | 0 <= i < j < |ManualSkills|
      ensures ManualFilename(ManualSkills[i]) != ManualFilename(ManualSkills[j])
    {
      ManualFilenameKeys(i);
      ManualFilenameKeys(j);
    }
  }

  /** The slash of `"UI/UX Design Principles"` becomes an underscore. */
  lemma SlashMapped()
    ensures MapChars("UI/UX Design Principles") == "UI_UX Design Principles"
  {
  }

  lemma MappedStripped()
    ensures Strip("UI_UX Design Principles") == "UI_UX Design Principles"
  {
    StripUnpadded("UI_UX Design Principles");
  }

  lemma MappedLowered()
    ensures Lower("UI_UX Design Principles") == JoinText(["ui_ux", "design", "principles"], " ")
  {
    LowerOfMapped();
    ExampleWords();
  }

  lemma LowerOfMapped()
    ensures Lower("UI_UX Design Principles") == "ui_ux design principles"
  {
  }

  lemma ExampleWords()
    ensures JoinText(["ui_ux", "design", "principles"], " ") == "ui_ux design principles"
  {
  }

  lemma LoweredSpaced()
    ensures Replace(JoinText(["ui_ux", "design", "principles"], " "), " ", "_") == "ui_ux_design_principles"
  {
    var words := ["ui_ux", "design", "principles"];
    ReplaceJoined(words, ' ', "_");
    assert JoinText(words, "_") == "ui_ux_design_principles";
  }

  lemma ExampleSquashed()
    ensures Squash("ui_ux_design_principles") == "ui_ux_design_principles"
  {
    SquashOfNoDouble("ui_ux_design_principles");
  }

  lemma SpacedExample()
    ensures Spaced("UI/UX Design Principles") == "ui_ux_design_principles"
  {
    SlashMapped();
    MappedStripped();
    MappedLowered();
    LoweredSpaced();
  }

  /** `"UI/UX Design Principles"` is saved under the name
      `ui_ux_design_principles`. */
  lemma SafeNameExample()
    ensures SafeName("UI/UX Design Principles") == "ui_ux_design_principles"
  {
    SpacedExample();
    ExampleSquashed();
  }
}
