/**
 * English inflection for table and class names. `Pluralize` and `Singularize`
 * rewrite the last underscore-separated word by fixed word tables, suffix
 * rules and regular fallbacks. `Inflector` holds the two process-wide caches
 * of camelize and decamelize, which always stay inverse to each other.
 */
module Inflection {
  import opened Wrappers
  import opened Strings
  import opened Exceptions

  // ---------------------------------------------------------------------------
  // Word tables
  // ---------------------------------------------------------------------------

  const Uncountable: seq<string> := [
    "cod", "deer", "fish", "offspring", "sheep", "trout", "barracks",
    "crossroads", "gallows", "headquarters", "means", "series",
    "species", "equipment", "fuzz", "jazz", "razzmatazz"]

  /** Irregular words that also occur as the end of longer words, singular first, in table order. */
  const Suffixes: seq<(string, string)> := [
    ("man", "men"), ("person", "people"), ("foot", "feet"), ("goose", "geese"),
    ("louse", "lice"), ("mouse", "mice"), ("tooth", "teeth"), ("hertz", "hertz")]

  /** Irregular whole words, singular first, in table order. */
  const Irregular: seq<(string, string)> := [
    ("child", "children"), ("ox", "oxen"), ("corpus", "corpora"), ("genus", "genera"),
    ("buzz", "buzzes"), ("libretto", "libretti"), ("tempo", "tempi"), ("virtuoso", "virtuosi"),
    ("cherub", "cherubim"), ("seraph", "seraphim"), ("schema", "schemata"), ("vortex", "vortices")]

  const FVes: seq<string> := ["cal", "el", "hal", "hoo", "lea", "loa", "scar", "sel", "shea", "shel", "thie", "wol"]
  const FeVes: seq<string> := ["kni", "li", "wi"]
  const OOes: seq<string> := ["ech", "embarg", "her", "potat", "tomat", "torped", "vet"]
  const AAe: seq<string> := ["alg", "larv", "nebul", "vertebr"]
  const UsI: seq<string> := ["alumn", "bacill", "foc", "nucle", "radi", "stimul", "termin"]
  const UmA: seq<string> := ["addend", "bacteri", "dat", "errat", "medi", "ov", "strat"]
  const IsEs: seq<string> := ["analys", "ax", "bas", "cris", "diagnos", "emphas", "hypothes", "neuros", "oas", "parenthes", "synops", "thes"]
  const OnA: seq<string> := ["criteri", "phenomen", "automat"]

  // ---------------------------------------------------------------------------
  // The last word of a name
  // ---------------------------------------------------------------------------

  /** The position just after the last '_' (0 when there is none). */
  function WordStart(s: string): (k: nat)
    ensures k <= |s|
    ensures '_' !in s[k..]
    ensures k > 0 ==> s[k - 1] == '_'
  {
    if |s| == 0 then 0
    else if s[|s| - 1] == '_' then |s|
    else
      var k := WordStart(s[..|s| - 1]);
      assert s[k..] == s[..|s| - 1][k..] + [s[|s| - 1]];
      k
  }

  /** The last word (`$m[2]`) and everything before it, underscore included (`$m[1]`). */
  function LastWord(s: string): string { s[WordStart(s)..] }
  function Head(s: string): string { s[..WordStart(s)] }

  /** A head is either empty or ends with the separator. */
  predicate IsHead(p: string) { p == "" || p[|p| - 1] == '_' }

  lemma {:induction false} WordStartOfJoin(p: string, w: string)
    requires IsHead(p) && '_' !in w
    ensures WordStart(p + w) == |p|
    decreases |w|
  {
    var s := p + w;
    if |w| == 0 {
      assert s == p;
      if |p| > 0 { assert s[|s| - 1] == '_'; }
    } else {
      assert s[|s| - 1] == w[|w| - 1];
      assert s[..|s| - 1] == p + w[..|w| - 1];
      WordStartOfJoin(p, w[..|w| - 1]);
    }
  }

  /** A head followed by a word splits back into that head and that word. */
  lemma LastWordOfJoin(p: string, w: string)
    requires IsHead(p) && '_' !in w
    ensures WordStart(p + w) == |p| && LastWord(p + w) == w && Head(p + w) == p
  {
    WordStartOfJoin(p, w);
    assert (p + w)[|p|..] == w;
    assert (p + w)[..|p|] == p;
  }

  // ---------------------------------------------------------------------------
  // Table searches
  // ---------------------------------------------------------------------------

  /** The value paired with the first key k at or after position i (array_key_exists and $table[$k]). */
  function LookupFrom(table: seq<(string, string)>, k: string, i: nat): Option<string>
    requires i <= |table|
    decreases |table| - i
  {
    if i == |table| then None
    else if table[i].0 == k then Some(table[i].1)
    else LookupFrom(table, k, i + 1)
  }

  function LookupFirst(table: seq<(string, string)>, k: string): Option<string>
  {
    LookupFrom(table, k, 0)
  }

  /** The key paired with the first value v at or after position i (array_search). */
  function SearchFrom(table: seq<(string, string)>, v: string, i: nat): Option<string>
    requires i <= |table|
    decreases |table| - i
  {
    if i == |table| then None
    else if table[i].1 == v then Some(table[i].0)
    else SearchFrom(table, v, i + 1)
  }

  function SearchFirst(table: seq<(string, string)>, v: string): Option<string>
  {
    SearchFrom(table, v, 0)
  }

  lemma {:induction false} LookupFromSpec(table: seq<(string, string)>, k: string, i: nat)
    requires i <= |table|
    ensures LookupFrom(table, k, i).Some? <==> exists j :: i <= j < |table| && table[j].0 == k
    ensures LookupFrom(table, k, i).Some? ==> exists j :: i <= j < |table| && table[j] == (k, LookupFrom(table, k, i).value)
    decreases |table| - i
  {
    if i < |table| && table[i].0 != k {
      LookupFromSpec(table, k, i + 1);
    }
  }

  lemma {:induction false} SearchFromSpec(table: seq<(string, string)>, v: string, i: nat)
    requires i <= |table|
    ensures SearchFrom(table, v, i).Some? <==> exists j :: i <= j < |table| && table[j].1 == v
    ensures SearchFrom(table, v, i).Some? ==> exists j :: i <= j < |table| && table[j] == (SearchFrom(table, v, i).value, v)
    decreases |table| - i
  {
    if i < |table| && table[i].1 != v {
      SearchFromSpec(table, v, i + 1);
    }
  }

  /** The lookup finds a value exactly when the key occurs, and the value it finds is paired with that key. */
  lemma LookupFirstSpec(table: seq<(string, string)>, k: string)
    ensures LookupFirst(table, k).Some? <==> exists i :: 0 <= i < |table| && table[i].0 == k
    ensures LookupFirst(table, k).Some? ==> exists i :: 0 <= i < |table| && table[i] == (k, LookupFirst(table, k).value)
  {
    LookupFromSpec(table, k, 0);
  }

  /** The reverse search finds a key exactly when the value occurs, and the key it finds is paired with that value. */
  lemma SearchFirstSpec(table: seq<(string, string)>, v: string)
    ensures SearchFirst(table, v).Some? <==> exists i :: 0 <= i < |table| && table[i].1 == v
    ensures SearchFirst(table, v).Some? ==> exists i :: 0 <= i < |table| && table[i] == (SearchFirst(table, v).value, v)
  {
    SearchFromSpec(table, v, 0);
  }

  /** Some listed stem at or after position i ends the word. */
  predicate AnyEndsWithFrom(stems: seq<string>, w: string, i: nat)
    requires i <= |stems|
    decreases |stems| - i
  {
    i < |stems| && (EndsWith(w, stems[i]) || AnyEndsWithFrom(stems, w, i + 1))
  }

  predicate AnyEndsWith(stems: seq<string>, w: string)
  {
    AnyEndsWithFrom(stems, w, 0)
  }

  lemma {:induction false} AnyEndsWithFromSpec(stems: seq<string>, w: string, i: nat)
    requires i <= |stems|
    ensures AnyEndsWithFrom(stems, w, i) <==> exists j :: i <= j < |stems| && EndsWith(w, stems[j])
    decreases |stems| - i
  {
    if i < |stems| {
      AnyEndsWithFromSpec(stems, w, i + 1);
    }
  }

  lemma AnyEndsWithSpec(stems: seq<string>, w: string)
    ensures AnyEndsWith(stems, w) <==> exists i :: 0 <= i < |stems| && EndsWith(w, stems[i])
  {
    AnyEndsWithFromSpec(stems, w, 0);
  }

  /** A key that no pair carries is not found. */
  lemma {:induction false} LookupFromAbsent(table: seq<(string, string)>, k: string, i: nat)
    requires i <= |table|
    requires forall p | p in table :: p.0 != k
    ensures LookupFrom(table, k, i).None?
    decreases |table| - i
  {
    if i < |table| {
      assert table[i] in table;
      LookupFromAbsent(table, k, i + 1);
    }
  }

  /** A value that no pair carries is not found. */
  lemma {:induction false} SearchFromAbsent(table: seq<(string, string)>, v: string, i: nat)
    requires i <= |table|
    requires forall p | p in table :: p.1 != v
    ensures SearchFrom(table, v, i).None?
    decreases |table| - i
  {
    if i < |table| {
      assert table[i] in table;
      SearchFromAbsent(table, v, i + 1);
    }
  }

  /** A word that no listed stem ends is not matched. */
  lemma {:induction false} AnyEndsWithFromAbsent(stems: seq<string>, w: string, i: nat)
    requires i <= |stems|
    requires forall t | t in stems :: !EndsWith(w, t)
    ensures !AnyEndsWithFrom(stems, w, i)
    decreases |stems| - i
  {
    if i < |stems| {
      assert stems[i] in stems;
      AnyEndsWithFromAbsent(stems, w, i + 1);
    }
  }

  /** A word that the j-th listed stem ends is matched. */
  lemma AnyEndsWithAt(stems: seq<string>, w: string, j: nat)
    requires j < |stems| && EndsWith(w, stems[j])
    ensures AnyEndsWith(stems, w)
  {
    AnyEndsWithSpec(stems, w);
  }

  /** The first pair at or after position i whose chosen side ends the word: its index. */
  function FirstEndingFrom(table: seq<(string, string)>, w: string, plural: bool, i: nat): (r: Option<nat>)
    requires i <= |table|
    ensures r.Some? ==> i <= r.value < |table| && EndsWith(w, if plural then table[r.value].1 else table[r.value].0)
    decreases |table| - i
  {
    if i == |table| then None
    else if EndsWith(w, if plural then table[i].1 else table[i].0) then Some(i)
    else FirstEndingFrom(table, w, plural, i + 1)
  }

  function FirstEnding(table: seq<(string, string)>, w: string, plural: bool): (r: Option<nat>)
    ensures r.Some? ==> r.value < |table| && EndsWith(w, if plural then table[r.value].1 else table[r.value].0)
  {
    FirstEndingFrom(table, w, plural, 0)
  }

  /** A word that no pair's chosen side ends has no ending. */
  lemma {:induction false} FirstEndingFromAbsent(table: seq<(string, string)>, w: string, plural: bool, i: nat)
    requires i <= |table|
    requires forall p | p in table :: !EndsWith(w, if plural then p.1 else p.0)
    ensures FirstEndingFrom(table, w, plural, i).None?
    decreases |table| - i
  {
    if i < |table| {
      assert table[i] in table;
      FirstEndingFromAbsent(table, w, plural, i + 1);
    }
  }

  lemma {:induction false} FirstEndingFromFirst(table: seq<(string, string)>, w: string, plural: bool, i: nat)
    requires i <= |table|
    ensures forall j :: i <= j < |table| && (FirstEndingFrom(table, w, plural, i).None? || j < FirstEndingFrom(table, w, plural, i).value) ==>
      !EndsWith(w, if plural then table[j].1 else table[j].0)
    decreases |table| - i
  {
    if i < |table| {
      FirstEndingFromFirst(table, w, plural, i + 1);
    }
  }

  /** No pair's chosen side ends the word when the search comes back empty, and none before the one it finds. */
  lemma FirstEndingFirst(table: seq<(string, string)>, w: string, plural: bool)
    ensures forall i :: 0 <= i < |table| && (FirstEnding(table, w, plural).None? || i < FirstEnding(table, w, plural).value) ==>
      !EndsWith(w, if plural then table[i].1 else table[i].0)
  {
    FirstEndingFromFirst(table, w, plural, 0);
  }

  /**
   * _suf: when the stem ends with one of the listed stems, the suffix `suf`
   * at the end of the whole string is replaced by `osuf`; otherwise null.
   */
  function Suf(s: string, stem: string, stems: seq<string>, suf: string, osuf: string): (r: Option<string>)
    requires EndsWith(s, suf)
    ensures r.Some? <==> AnyEndsWith(stems, stem)
    ensures r.Some? ==> r.value == s[..|s| - |suf|] + osuf
  {
    if AnyEndsWith(stems, stem) then Some(s[..|s| - |suf|] + osuf) else None
  }

  /** The last word ends with `suf` and has at least one character before it (`([^_]+)suf$`). */
  predicate WordEnds(w: string, suf: string)
  {
    |w| > |suf| && EndsWith(w, suf)
  }

  function Stem(w: string, suf: string): string
    requires WordEnds(w, suf)
  {
    w[..|w| - |suf|]
  }

  lemma WordEndsWhole(s: string, suf: string)
    requires WordEnds(LastWord(s), suf)
    ensures EndsWith(s, suf)
  {
    var k := WordStart(s);
    assert s[k..][|s[k..]| - |suf|..] == s[|s| - |suf|..];
  }

  predicate IsVowel(c: char) { c in "aeiou" }

  // ---------------------------------------------------------------------------
  // pluralize
  // ---------------------------------------------------------------------------

  /**
   * The whole-word rules on the last word: an uncountable word is kept, a
   * listed irregular word is swapped for its partner (first match in table
   * order), and a listed irregular ending has its partner put in its place.
   * `plural` says which side of each pair is being looked for.
   */
  function WholeWord(s: string, uncountable: seq<string>, words: seq<(string, string)>,
                     endings: seq<(string, string)>, plural: bool): (r: Option<string>)
  {
    var w := LastWord(s);
    var found := if plural then SearchFirst(words, w) else LookupFirst(words, w);
    if w == "" then None
    else if w in uncountable then Some(s)
    else if found.Some? then Some(Head(s) + found.value)
    else
      match FirstEnding(endings, w, plural)
      case Some(i) =>
        var e := if plural then endings[i].1 else endings[i].0;
        assert EndsWith(s, e) by {
          var k := WordStart(s);
          assert s[k..][|w| - |e|..] == s[|s| - |e|..];
        }
        Some(s[..|s| - |e|] + (if plural then endings[i].0 else endings[i].1))
      case None => None
  }

  function PluralIrregular(s: string): (r: Option<string>)
  {
    WholeWord(s, Uncountable, Irregular, Suffixes, false)
  }

  /** The stem rules, tried in order on the last word; only the first whose suffix matches is consulted. */
  function PluralStem(s: string): (r: Option<string>)
  {
    var w := LastWord(s);
    if WordEnds(w, "fe") then WordEndsWhole(s, "fe"); Suf(s, Stem(w, "fe"), FeVes, "fe", "ves")
    else if WordEnds(w, "f") then WordEndsWhole(s, "f"); Suf(s, Stem(w, "f"), FVes, "f", "ves")
    else if WordEnds(w, "o") then WordEndsWhole(s, "o"); Suf(s, Stem(w, "o"), OOes, "o", "oes")
    else if WordEnds(w, "a") then WordEndsWhole(s, "a"); Suf(s, Stem(w, "a"), AAe, "a", "ae")
    else if WordEnds(w, "us") then WordEndsWhole(s, "us"); Suf(s, Stem(w, "us"), UsI, "us", "i")
    else if WordEnds(w, "um") then WordEndsWhole(s, "um"); Suf(s, Stem(w, "um"), UmA, "um", "a")
    else if WordEnds(w, "is") then WordEndsWhole(s, "is"); Suf(s, Stem(w, "is"), IsEs, "is", "es")
    else if WordEnds(w, "on") then WordEndsWhole(s, "on"); Suf(s, Stem(w, "on"), OnA, "on", "a")
    else None
  }

  /** The regular English plural. */
  function PluralRegular(s: string): string
  {
    if EndsWith(s, "y") then
      if |s| >= 2 && IsVowel(s[|s| - 2]) then s + "s" else s[..|s| - 1] + "ies"
    else if EndsWith(s, "z") then s[..|s| - 1] + "zzes"
    else if EndsWith(s, "s") || EndsWith(s, "ch") || EndsWith(s, "x") then s + "es"
    else s + "s"
  }

  /** Inflection::pluralize. */
  function Pluralize(s: string): string
  {
    match PluralIrregular(s)
    case Some(r) => r
    case None =>
      match PluralStem(s)
      case Some(r) => r
      case None => PluralRegular(s)
  }

  // ---------------------------------------------------------------------------
  // singularize
  // ---------------------------------------------------------------------------

  function SingularIrregular(s: string): (r: Option<string>)
  {
    WholeWord(s, Uncountable, Irregular, Suffixes, true)
  }

  function SingularStem(s: string): (r: Option<string>)
  {
    var w := LastWord(s);
    if WordEnds(w, "ves") then
      WordEndsWhole(s, "ves");
      var fe := Suf(s, Stem(w, "ves"), FeVes, "ves", "fe");
      if fe.Some? then fe else Suf(s, Stem(w, "ves"), FVes, "ves", "f")
    else if WordEnds(w, "oes") then WordEndsWhole(s, "oes"); Suf(s, Stem(w, "oes"), OOes, "oes", "o")
    else if WordEnds(w, "ae") then WordEndsWhole(s, "ae"); Suf(s, Stem(w, "ae"), AAe, "ae", "a")
    else if WordEnds(w, "i") then WordEndsWhole(s, "i"); Suf(s, Stem(w, "i"), UsI, "i", "us")
    else if WordEnds(w, "a") then
      WordEndsWhole(s, "a");
      var um := Suf(s, Stem(w, "a"), UmA, "a", "um");
      if um.Some? then um else Suf(s, Stem(w, "a"), OnA, "a", "on")
    else if WordEnds(w, "es") then WordEndsWhole(s, "es"); Suf(s, Stem(w, "es"), IsEs, "es", "is")
    else None
  }

  function SingularRegular(s: string): string
  {
    if EndsWith(s, "ies") then s[..|s| - 3] + "y"
    else if |s| >= 5 && EndsWith(s, "zzes") && IsVowel(s[|s| - 5]) then s[..|s| - 4] + "z"
    else if EndsWith(s, "ses") || EndsWith(s, "ches") || EndsWith(s, "xes") then s[..|s| - 2]
    else if EndsWith(s, "s") then s[..|s| - 1]
    else s
  }

  /** Inflection::singularize. */
  function Singularize(s: string): string
  {
    match SingularIrregular(s)
    case Some(r) => r
    case None =>
      match SingularStem(s)
      case Some(r) => r
      case None => SingularRegular(s)
  }

  // ---------------------------------------------------------------------------
  // Properties of pluralize and singularize
  // ---------------------------------------------------------------------------

  /** An uncountable last word leaves the whole name unchanged in both directions. */
  lemma {:induction false} UncountableUnchanged(p: string, w: string)
    requires IsHead(p) && w in Uncountable
    ensures Pluralize(p + w) == p + w
    ensures Singularize(p + w) == p + w
  {
    assert '_' !in w;
    LastWordOfJoin(p, w);
  }

  /** The irregular words are single countable words, and no singular or plural occurs twice. */
  lemma IrregularWords()
    ensures forall i | 0 <= i < |Irregular| :: '_' !in Irregular[i].0 && '_' !in Irregular[i].1
    ensures forall i | 0 <= i < |Irregular| :: Irregular[i].0 != "" && Irregular[i].1 != ""
  {
  }

  lemma IrregularCountable()
    ensures forall i | 0 <= i < |Irregular| :: Irregular[i].0 !in Uncountable && Irregular[i].1 !in Uncountable
  {
  }

  lemma IrregularDistinct()
    ensures forall i, j | 0 <= i < j < |Irregular| :: Irregular[i].0 != Irregular[j].0
    ensures forall i, j | 0 <= i < j < |Irregular| :: Irregular[i].1 != Irregular[j].1
  {
  }

  /** In a table whose keys and values are each distinct, the search from any earlier position finds the pair itself. */
  lemma {:induction false} DistinctPairFound(table: seq<(string, string)>, i: nat, k: nat)
    requires k <= i < |table|
    requires forall j | 0 <= j < |table| && j != i :: table[j].0 != table[i].0 && table[j].1 != table[i].1
    ensures LookupFrom(table, table[i].0, k) == Some(table[i].1)
    ensures SearchFrom(table, table[i].1, k) == Some(table[i].0)
    decreases i - k
  {
    if k < i {
      DistinctPairFound(table, i, k + 1);
    }
  }

  /**
   * An irregular last word is replaced by its plural, keeping the head, and
   * singularize maps that plural back.
   */
  lemma {:induction false} IrregularRoundTrip(p: string, i: nat)
    requires IsHead(p) && i < |Irregular|
    ensures Pluralize(p + Irregular[i].0) == p + Irregular[i].1
    ensures Singularize(p + Irregular[i].1) == p + Irregular[i].0
  {
    var (w, v) := Irregular[i];
    IrregularWords();
    IrregularCountable();
    IrregularDistinct();
    assert w != "" && v != "" && w !in Uncountable && v !in Uncountable;
    LastWordOfJoin(p, w);
    LastWordOfJoin(p, v);
    DistinctPairFound(Irregular, i, 0);
    assert PluralIrregular(p + w) == Some(p + v);
    assert SingularIrregular(p + v) == Some(p + w);
  }

  // Each example below is checked in stages: the last word, the whole-word
  // rules, then the stem rules, then the regular fallback.

  lemma Word(w: string)
    requires '_' !in w
    ensures WordStart(w) == 0 && LastWord(w) == w && Head(w) == ""
  {
    LastWordOfJoin("", w);
    assert "" + w == w;
  }

  lemma PluralIrregularNone(w: string)
    requires '_' !in w && w != "" && w !in Uncountable
    requires LookupFirst(Irregular, w).None? && FirstEnding(Suffixes, w, false).None?
    ensures PluralIrregular(w).None?
  {
    Word(w);
  }

  lemma SingularIrregularNone(w: string)
    requires '_' !in w && w != "" && w !in Uncountable
    requires SearchFirst(Irregular, w).None? && FirstEnding(Suffixes, w, true).None?
    ensures SingularIrregular(w).None?
  {
    Word(w);
  }

  /** The whole-word rules when the last word is no listed word but has a listed ending, the i-th first. */
  lemma WholeWordEnding(s: string, uncountable: seq<string>, words: seq<(string, string)>,
                        endings: seq<(string, string)>, plural: bool, i: nat)
    requires i < |endings|
    requires var w := LastWord(s);
      w != "" && w !in uncountable && FirstEnding(endings, w, plural) == Some(i) &&
      (if plural then SearchFirst(words, w) else LookupFirst(words, w)).None?
    ensures var (e, o) := if plural then (endings[i].1, endings[i].0) else (endings[i].0, endings[i].1);
      |e| <= |s| && WholeWord(s, uncountable, words, endings, plural) == Some(s[..|s| - |e|] + o)
  {
    var w := LastWord(s);
    var (e, o) := if plural then (endings[i].1, endings[i].0) else (endings[i].0, endings[i].1);
    assert EndsWith(w, e) && |w| <= |s|;
    assert |e| <= |s|;
    assert !(w in uncountable);
    if plural {
      assert SearchFirst(words, w).None?;
    } else {
      assert LookupFirst(words, w).None?;
    }
    assert WholeWord(s, uncountable, words, endings, plural) == Some(s[..|s| - |e|] + o);
  }

  /**
   * A last word that is no irregular word but ends with the i-th irregular
   * ending, first among the endings, has that ending replaced.
   */
  lemma PluralIrregularEnding(p: string, stem: string, i: nat)
    requires i < |Suffixes| && IsHead(p)
    requires var w := stem + Suffixes[i].0;
      '_' !in w && w !in Uncountable && LookupFirst(Irregular, w).None? && FirstEnding(Suffixes, w, false) == Some(i)
    ensures PluralIrregular(p + (stem + Suffixes[i].0)) == Some(p + (stem + Suffixes[i].1))
  {
    var (e, o) := Suffixes[i];
    var w := stem + e;
    LastWordOfJoin(p, w);
    WholeWordEnding(p + w, Uncountable, Irregular, Suffixes, false, i);
    TakeHead(p, w, |e|);
    assert w[..|w| - |e|] == stem;
    ConcatAssoc(p, stem, o);
  }

  lemma SingularIrregularEnding(p: string, stem: string, i: nat)
    requires i < |Suffixes| && IsHead(p)
    requires var w := stem + Suffixes[i].1;
      '_' !in w && w !in Uncountable && SearchFirst(Irregular, w).None? && FirstEnding(Suffixes, w, true) == Some(i)
    ensures SingularIrregular(p + (stem + Suffixes[i].1)) == Some(p + (stem + Suffixes[i].0))
  {
    var (o, e) := Suffixes[i];
    var w := stem + e;
    LastWordOfJoin(p, w);
    WholeWordEnding(p + w, Uncountable, Irregular, Suffixes, true, i);
    TakeHead(p, w, |e|);
    assert w[..|w| - |e|] == stem;
    ConcatAssoc(p, stem, o);
  }

  /** Prepending the head adds the head to a result, and keeps an absent result absent. */
  function Prepend(p: string, r: Option<string>): Option<string>
  {
    if r.Some? then Some(p + r.value) else None
  }

  /** A suffix without '_' ends a head plus a word exactly when it ends the word alone. */
  lemma EndsWithHead(p: string, w: string, suf: string)
    requires IsHead(p) && '_' !in w && '_' !in suf
    ensures EndsWith(p + w, suf) <==> EndsWith(w, suf)
  {
    var s := p + w;
    if |suf| <= |w| {
      assert s[|s| - |suf|..] == w[|w| - |suf|..];
    } else if |p| > 0 && |suf| <= |s| {
      var k := |suf| - |w| - 1;
      assert s[|s| - |suf|..][k] == s[|p| - 1] == '_';
      assert suf[k] in suf;
    }
  }

  lemma ConcatAssoc(p: string, w: string, t: string)
    ensures (p + w) + t == p + (w + t)
  {
  }

  /** The character just before the last word is the separator, never a vowel. */
  lemma BeforeWord(p: string, w: string, n: nat)
    requires IsHead(p) && n == |w| + 1 && n <= |p + w|
    ensures !IsVowel((p + w)[|p + w| - n])
  {
    var s := p + w;
    assert s[|s| - n] == p[|p| - 1] == '_';
  }

  lemma {:induction false} WholeWordLastWord(p: string, w: string, uncountable: seq<string>,
                                              words: seq<(string, string)>, endings: seq<(string, string)>, plural: bool)
    requires IsHead(p) && '_' !in w
    ensures WholeWord(p + w, uncountable, words, endings, plural) == Prepend(p, WholeWord(w, uncountable, words, endings, plural))
  {
    LastWordOfJoin(p, w);
    Word(w);
    var found := if plural then SearchFirst(words, w) else LookupFirst(words, w);
    if w == "" {
    } else if w in uncountable {
      assert WholeWord(w, uncountable, words, endings, plural) == Some(w);
    } else if found.Some? {
      assert Head(w) + found.value == found.value;
      assert WholeWord(w, uncountable, words, endings, plural) == Some(found.value);
      assert WholeWord(p + w, uncountable, words, endings, plural) == Some(p + found.value);
    } else {
      match FirstEnding(endings, w, plural)
      case Some(i) =>
        var e := if plural then endings[i].1 else endings[i].0;
        WholeWordEnding(w, uncountable, words, endings, plural, i);
        WholeWordEnding(p + w, uncountable, words, endings, plural, i);
        DropHead(p, w, |e|, if plural then endings[i].0 else endings[i].1);
      case None =>
        assert WholeWord(w, uncountable, words, endings, plural).None?;
        assert WholeWord(p + w, uncountable, words, endings, plural).None?;
    }
  }

  /** Suf on a head plus a word is the head plus Suf on the word. */
  lemma SufHead(p: string, w: string, stem: string, stems: seq<string>, suf: string, osuf: string)
    requires EndsWith(w, suf)
    ensures EndsWith(p + w, suf)
    ensures Suf(p + w, stem, stems, suf, osuf) == Prepend(p, Suf(w, stem, stems, suf, osuf))
  {
    var s := p + w;
    assert s[|s| - |suf|..] == w[|w| - |suf|..];
    assert s[..|s| - |suf|] == p + w[..|w| - |suf|];
    assert s[..|s| - |suf|] + osuf == p + (w[..|w| - |suf|] + osuf);
  }

  /** A word whose k-th character from the end differs from the suffix's does not end with it. */
  lemma NotEndsWithAt(w: string, suf: string, k: nat)
    requires 0 < k <= |suf| && (|suf| <= |w| ==> w[|w| - k] != suf[|suf| - k])
    ensures !EndsWith(w, suf)
  {
    if |suf| <= |w| {
      assert w[|w| - |suf|..][|suf| - k] == w[|w| - k];
    }
  }

  /** A word that ends in none of the letters the plural stem rules look for has no stem plural. */
  lemma PluralStemNone(w: string)
    requires '_' !in w && |w| > 0 && w[|w| - 1] !in "efoasmn"
    ensures PluralStem(w).None?
  {
    Word(w);
    NotEndsWithAt(w, "fe", 1);
    NotEndsWithAt(w, "f", 1);
    NotEndsWithAt(w, "o", 1);
    NotEndsWithAt(w, "a", 1);
    NotEndsWithAt(w, "us", 1);
    NotEndsWithAt(w, "um", 1);
    NotEndsWithAt(w, "is", 1);
    NotEndsWithAt(w, "on", 1);
  }

  /** A word that ends neither in 'e', 'i' or 'a' nor in "e" and one more letter has no stem singular. */
  lemma SingularStemNone(w: string)
    requires '_' !in w && |w| >= 2 && w[|w| - 1] !in "eia" && w[|w| - 2] != 'e'
    ensures SingularStem(w).None?
  {
    Word(w);
    NotEndsWithAt(w, "ves", 2);
    NotEndsWithAt(w, "oes", 2);
    NotEndsWithAt(w, "ae", 1);
    NotEndsWithAt(w, "i", 1);
    NotEndsWithAt(w, "a", 1);
    NotEndsWithAt(w, "es", 2);
  }

  /** A word ending in "es" after neither 'v' nor 'o' reaches the last stem rule. */
  lemma SingularStemEs(w: string)
    requires '_' !in w && |w| >= 3 && EndsWith(w, "es") && w[|w| - 3] != 'v' && w[|w| - 3] != 'o'
    ensures SingularStem(w) == Suf(w, w[..|w| - 2], IsEs, "es", "is")
  {
    Word(w);
    assert w[|w| - 2] == 'e' && w[|w| - 1] == 's';
    NotEndsWithAt(w, "ves", 3);
    NotEndsWithAt(w, "oes", 3);
    NotEndsWithAt(w, "ae", 2);
    NotEndsWithAt(w, "i", 1);
    NotEndsWithAt(w, "a", 1);
  }

  lemma {:induction false} PluralStemLastWord(p: string, w: string)
    requires IsHead(p) && '_' !in w
    ensures PluralStem(p + w) == Prepend(p, PluralStem(w))
  {
    LastWordOfJoin(p, w);
    Word(w);
    if WordEnds(w, "fe") { SufHead(p, w, Stem(w, "fe"), FeVes, "fe", "ves"); }
    else if WordEnds(w, "f") { SufHead(p, w, Stem(w, "f"), FVes, "f", "ves"); }
    else if WordEnds(w, "o") { SufHead(p, w, Stem(w, "o"), OOes, "o", "oes"); }
    else if WordEnds(w, "a") { SufHead(p, w, Stem(w, "a"), AAe, "a", "ae"); }
    else if WordEnds(w, "us") { SufHead(p, w, Stem(w, "us"), UsI, "us", "i"); }
    else if WordEnds(w, "um") { SufHead(p, w, Stem(w, "um"), UmA, "um", "a"); }
    else if WordEnds(w, "is") { SufHead(p, w, Stem(w, "is"), IsEs, "is", "es"); }
    else if WordEnds(w, "on") { SufHead(p, w, Stem(w, "on"), OnA, "on", "a"); }
  }

  lemma {:induction false} SingularStemLastWord(p: string, w: string)
    requires IsHead(p) && '_' !in w
    ensures SingularStem(p + w) == Prepend(p, SingularStem(w))
  {
    LastWordOfJoin(p, w);
    Word(w);
    if WordEnds(w, "ves") {
      SufHead(p, w, Stem(w, "ves"), FeVes, "ves", "fe");
      SufHead(p, w, Stem(w, "ves"), FVes, "ves", "f");
    }
    else if WordEnds(w, "oes") { SufHead(p, w, Stem(w, "oes"), OOes, "oes", "o"); }
    else if WordEnds(w, "ae") { SufHead(p, w, Stem(w, "ae"), AAe, "ae", "a"); }
    else if WordEnds(w, "i") { SufHead(p, w, Stem(w, "i"), UsI, "i", "us"); }
    else if WordEnds(w, "a") {
      SufHead(p, w, Stem(w, "a"), UmA, "a", "um");
      SufHead(p, w, Stem(w, "a"), OnA, "a", "on");
    }
    else if WordEnds(w, "es") { SufHead(p, w, Stem(w, "es"), IsEs, "es", "is"); }
  }

  lemma PluralRegularY(p: string, w: string)
    requires IsHead(p) && '_' !in w && EndsWith(w, "y") && EndsWith(p + w, "y")
    ensures PluralRegular(p + w) == p + PluralRegular(w)
  {
    var s := p + w;
    var vw := |w| >= 2 && IsVowel(w[|w| - 2]);
    var vs := |s| >= 2 && IsVowel(s[|s| - 2]);
    assert vs == vw by {
      if |w| >= 2 {
        assert s[|s| - 2] == w[|w| - 2];
      } else if |s| >= 2 {
        BeforeWord(p, w, 2);
      }
    }
    if vw {
      ConcatAssoc(p, w, "s");
    } else {
      assert s[..|s| - 1] == p + w[..|w| - 1];
      ConcatAssoc(p, w[..|w| - 1], "ies");
    }
  }

  lemma PluralRegularZ(p: string, w: string)
    requires !EndsWith(w, "y") && !EndsWith(p + w, "y") && EndsWith(w, "z") && EndsWith(p + w, "z")
    ensures PluralRegular(p + w) == p + PluralRegular(w)
  {
    var s := p + w;
    assert s[..|s| - 1] == p + w[..|w| - 1];
    ConcatAssoc(p, w[..|w| - 1], "zzes");
  }

  lemma PluralRegularOther(p: string, w: string)
    requires !EndsWith(w, "y") && !EndsWith(p + w, "y") && !EndsWith(w, "z") && !EndsWith(p + w, "z")
    requires EndsWith(p + w, "s") == EndsWith(w, "s") && EndsWith(p + w, "ch") == EndsWith(w, "ch")
    requires EndsWith(p + w, "x") == EndsWith(w, "x")
    ensures PluralRegular(p + w) == p + PluralRegular(w)
  {
    ConcatAssoc(p, w, "es");
    ConcatAssoc(p, w, "s");
  }

  lemma PluralRegularLastWord(p: string, w: string)
    requires IsHead(p) && '_' !in w
    ensures PluralRegular(p + w) == p + PluralRegular(w)
  {
    EndsWithHead(p, w, "y");
    EndsWithHead(p, w, "z");
    if EndsWith(w, "y") {
      PluralRegularY(p, w);
    } else if EndsWith(w, "z") {
      PluralRegularZ(p, w);
    } else {
      EndsWithHead(p, w, "s");
      EndsWithHead(p, w, "ch");
      EndsWithHead(p, w, "x");
      PluralRegularOther(p, w);
    }
  }

  /** Dropping the last n characters of a head plus a word drops them from the word. */
  lemma TakeHead(p: string, w: string, n: nat)
    requires n <= |w|
    ensures (p + w)[..|p + w| - n] == p + w[..|w| - n]
  {
  }

  lemma DropHead(p: string, w: string, n: nat, t: string)
    requires n <= |w|
    ensures (p + w)[..|p + w| - n] + t == p + (w[..|w| - n] + t)
  {
    TakeHead(p, w, n);
  }

  /** A word ending in "zzes" after a vowel loses "zes"; the separator before a short word is no vowel. */
  lemma SingularRegularZzes(p: string, w: string)
    requires IsHead(p) && '_' !in w
    requires !EndsWith(w, "ies") && !EndsWith(p + w, "ies") && EndsWith(w, "zzes") && EndsWith(p + w, "zzes")
    requires |w| >= 5 && IsVowel(w[|w| - 5])
    ensures SingularRegular(p + w) == p + SingularRegular(w)
  {
    var s := p + w;
    assert s[|s| - 5] == w[|w| - 5];
    assert |s| >= 5 && IsVowel(s[|s| - 5]);
    assert SingularRegular(s) == s[..|s| - 4] + "z";
    assert SingularRegular(w) == w[..|w| - 4] + "z";
    DropHead(p, w, 4, "z");
  }

  lemma SingularRegularZzesAlone(p: string, w: string)
    requires IsHead(p) && '_' !in w
    requires !EndsWith(w, "ies") && !EndsWith(p + w, "ies") && EndsWith(w, "zzes") && EndsWith(p + w, "zzes")
    requires !(|w| >= 5 && IsVowel(w[|w| - 5]))
    ensures !(|p + w| >= 5 && IsVowel((p + w)[|p + w| - 5]))
  {
    var s := p + w;
    if |w| >= 5 {
      assert s[|s| - 5] == w[|w| - 5];
    } else if |s| >= 5 {
      BeforeWord(p, w, 5);
    }
  }

  lemma SingularRegularOther(p: string, w: string)
    requires !EndsWith(w, "ies") && !EndsWith(p + w, "ies")
    requires !(|w| >= 5 && EndsWith(w, "zzes") && IsVowel(w[|w| - 5]))
    requires !(|p + w| >= 5 && EndsWith(p + w, "zzes") && IsVowel((p + w)[|p + w| - 5]))
    requires EndsWith(p + w, "ses") == EndsWith(w, "ses") && EndsWith(p + w, "ches") == EndsWith(w, "ches")
    requires EndsWith(p + w, "xes") == EndsWith(w, "xes") && EndsWith(p + w, "s") == EndsWith(w, "s")
    ensures SingularRegular(p + w) == p + SingularRegular(w)
  {
    var s := p + w;
    if EndsWith(w, "ses") || EndsWith(w, "ches") || EndsWith(w, "xes") {
      assert SingularRegular(w) == w[..|w| - 2];
      assert SingularRegular(s) == s[..|s| - 2];
      TakeHead(p, w, 2);
    } else if EndsWith(w, "s") {
      assert SingularRegular(w) == w[..|w| - 1];
      assert SingularRegular(s) == s[..|s| - 1];
      TakeHead(p, w, 1);
    } else {
      assert SingularRegular(w) == w;
      assert SingularRegular(s) == s;
    }
  }

  lemma SingularRegularLastWord(p: string, w: string)
    requires IsHead(p) && '_' !in w
    ensures SingularRegular(p + w) == p + SingularRegular(w)
  {
    EndsWithHead(p, w, "ies");
    EndsWithHead(p, w, "zzes");
    if EndsWith(w, "ies") {
      DropHead(p, w, 3, "y");
    } else if EndsWith(w, "zzes") && |w| >= 5 && IsVowel(w[|w| - 5]) {
      SingularRegularZzes(p, w);
    } else {
      if EndsWith(w, "zzes") {
        SingularRegularZzesAlone(p, w);
      }
      EndsWithHead(p, w, "ses");
      EndsWithHead(p, w, "ches");
      EndsWithHead(p, w, "xes");
      EndsWithHead(p, w, "s");
      SingularRegularOther(p, w);
    }
  }

  /**
   * pluralize and singularize change only the last word: the words before
   * it, and the '_' separators, are kept as they are.
   */
  lemma PluralizeLastWord(p: string, w: string)
    requires IsHead(p) && '_' !in w
    ensures Pluralize(p + w) == p + Pluralize(w)
    ensures Singularize(p + w) == p + Singularize(w)
  {
    WholeWordLastWord(p, w, Uncountable, Irregular, Suffixes, false);
    PluralStemLastWord(p, w);
    PluralRegularLastWord(p, w);
    WholeWordLastWord(p, w, Uncountable, Irregular, Suffixes, true);
    SingularStemLastWord(p, w);
    SingularRegularLastWord(p, w);
  }

  // ---------------------------------------------------------------------------
  // camelize / decamelize
  // ---------------------------------------------------------------------------

  /** A word with its first character upper-cased (strtoupper(substr($w, 0, 1)) . substr($w, 1)). */
  function Ucfirst(w: string): (r: string)
    ensures |r| == |w|
    ensures |w| > 0 ==> r[0] == ToUpper(w[0]) && r[1..] == w[1..]
  {
    if |w| == 0 then "" else [ToUpper(w[0])] + w[1..]
  }

  /** The upper-cased words joined with nothing in between. */
  function CamelWords(ws: seq<string>): string
  {
    if |ws| == 0 then "" else Ucfirst(ws[0]) + CamelWords(ws[1..])
  }

  /** What camelize computes when its cache misses: the '_'-separated words, each upper-cased, joined. */
  function CamelizeText(s: string): string
  {
    CamelWords(Split(s, '_'))
  }

  lemma CamelWordsOne(w: string)
    ensures CamelWords([w]) == Ucfirst(w)
  {
    assert [w][1..] == [];
  }

  lemma {:induction false} CamelWordsAppend(ws: seq<string>, w: string)
    ensures CamelWords(ws + [w]) == CamelWords(ws) + Ucfirst(w)
  {
    if |ws| == 0 {
      assert ws + [w] == [w];
      CamelWordsOne(w);
    } else {
      var t := ws + [w];
      assert t[0] == ws[0] && t[1..] == ws[1..] + [w];
      CamelWordsAppend(ws[1..], w);
      assert CamelWords(t) == Ucfirst(ws[0]) + (CamelWords(ws[1..]) + Ucfirst(w));
      ConcatAssoc(Ucfirst(ws[0]), CamelWords(ws[1..]), Ucfirst(w));
    }
  }

  lemma {:induction false} CamelWordsFree(ws: seq<string>)
    requires forall k :: 0 <= k < |ws| ==> '_' !in ws[k]
    ensures '_' !in CamelWords(ws)
  {
    if |ws| > 0 {
      CamelWordsFree(ws[1..]);
      var u := Ucfirst(ws[0]);
      if |ws[0]| > 0 {
        assert u == [u[0]] + u[1..];
        assert ws[0][0] in ws[0];
      }
    }
  }

  /** A camelized name never contains the separator. */
  lemma CamelizeHasNoSeparator(s: string)
    ensures '_' !in CamelizeText(s)
  {
    SplitPiecesFree(s, '_');
    CamelWordsFree(Split(s, '_'));
  }

  /**
   * One pass of the loop in decamelize over character x, given the output so
   * far and whether the last letter was upper-case. The first character is
   * always kept (lower-cased); later lower-case letters are kept; an
   * upper-case letter starts a new word unless it continues a run of
   * upper-case letters that is not followed by a lower-case one; white space
   * becomes '_'; anything else is dropped. Past the end there is no
   * lower-case letter.
   */
  function DecamelStep(s: string, x: nat, out: string, onupper: bool): (string, bool)
    requires x < |s|
  {
    var c := s[x];
    if |out| == 0 then (out + [ToLower(c)], onupper)
    else if IsLower(c) then (out + [c], false)
    else if IsUpper(c) then
      var sep := if !onupper || (x + 1 < |s| && IsLower(s[x + 1])) then "_" else "";
      (out + sep + [ToLower(c)], true)
    else if IsPcreSpace(c) then (out + "_", onupper)
    else (out, onupper)
  }

  /** The rest of the loop, from character x on. */
  function DecamelizeFrom(s: string, x: nat, out: string, onupper: bool): string
    requires x <= |s|
    decreases |s| - x
  {
    if x == |s| then out
    else
      var (o, u) := DecamelStep(s, x, out, onupper);
      DecamelizeFrom(s, x + 1, o, u)
  }

  /** What decamelize computes when its cache misses. */
  function DecamelizeText(s: string): string
  {
    DecamelizeFrom(s, 0, "", true)
  }

  predicate NoUpper(s: string)
  {
    forall k :: 0 <= k < |s| ==> !IsUpper(s[k])
  }

  lemma {:induction false} DecamelizeFromNoUpper(s: string, x: nat, out: string, onupper: bool)
    requires x <= |s| && NoUpper(out)
    ensures NoUpper(DecamelizeFrom(s, x, out, onupper))
    decreases |s| - x
  {
    if x < |s| {
      var (o, u) := DecamelStep(s, x, out, onupper);
      DecamelizeFromNoUpper(s, x + 1, o, u);
    }
  }

  /** A decamelized name holds no upper-case letter. */
  lemma DecamelizeHasNoUpper(s: string)
    ensures NoUpper(DecamelizeText(s))
  {
    DecamelizeFromNoUpper(s, 0, "", true);
  }

  predicate AllLower(s: string)
  {
    forall k :: 0 <= k < |s| ==> IsLower(s[k])
  }

  /** The loop over a text depends only on the characters from x on. */
  lemma {:induction false} DecamelizeShift(a: string, b: string, x: nat, out: string, onupper: bool)
    requires x <= |b|
    ensures DecamelizeFrom(a + b, |a| + x, out, onupper) == DecamelizeFrom(b, x, out, onupper)
    decreases |b| - x
  {
    if x < |b| {
      assert (a + b)[|a| + x] == b[x];
      if x + 1 < |b| { assert (a + b)[|a| + x + 1] == b[x + 1]; }
      var (o, u) := DecamelStep(b, x, out, onupper);
      DecamelizeShift(a, b, x + 1, o, u);
    }
  }

  /** A run of lower-case letters is copied as it is and ends any upper-case run. */
  lemma {:induction false} DecamelizeLowerRun(s: string, x: nat, y: nat, out: string, onupper: bool)
    requires x < y <= |s| && out != ""
    requires forall k :: x <= k < y ==> IsLower(s[k])
    ensures DecamelizeFrom(s, x, out, onupper) == DecamelizeFrom(s, y, out + s[x..y], false)
    decreases y - x
  {
    if x + 1 == y {
      assert out + s[x..y] == out + [s[x]];
    } else {
      DecamelizeLowerRun(s, x + 1, y, out + [s[x]], false);
      assert out + [s[x]] + s[x + 1..y] == out + s[x..y];
    }
  }

  lemma LowerUpper(c: char)
    requires IsLower(c)
    ensures ToLower(ToUpper(c)) == c
  {
  }

  /** A camelized word of two or more lower-case letters comes back as '_' and the word. */
  lemma {:induction false} DecamelizeWord(w: string, rest: string, out: string, onupper: bool)
    requires |w| >= 2 && AllLower(w) && out != ""
    ensures DecamelizeFrom(Ucfirst(w) + rest, 0, out, onupper) == DecamelizeFrom(rest, 0, out + "_" + w, false)
  {
    var s := Ucfirst(w) + rest;
    LowerUpper(w[0]);
    assert s[0] == ToUpper(w[0]) && IsUpper(s[0]) && IsLower(s[1]);
    assert DecamelStep(s, 0, out, onupper) == (out + "_" + [w[0]], true);
    assert forall k :: 1 <= k < |w| ==> s[k] == w[k];
    DecamelizeLowerRun(s, 1, |w|, out + "_" + [w[0]], true);
    assert s[1..|w|] == w[1..];
    assert [w[0]] + w[1..] == w;
    ConcatAssoc(out + "_", [w[0]], w[1..]);
    DecamelizeShift(Ucfirst(w), rest, 0, out + "_" + w, false);
  }

  /** The first word comes back lower-cased, with no separator before it. */
  lemma {:induction false} DecamelizeFirstWord(w: string, rest: string)
    requires |w| >= 2 && AllLower(w)
    ensures DecamelizeFrom(Ucfirst(w) + rest, 0, "", true) == DecamelizeFrom(rest, 0, w, false)
  {
    var s := Ucfirst(w) + rest;
    LowerUpper(w[0]);
    assert s[0] == ToUpper(w[0]);
    assert ToLower(s[0]) == w[0];
    assert "" + [w[0]] == [w[0]];
    assert DecamelStep(s, 0, "", true) == ([w[0]], true);
    assert forall k :: 1 <= k < |w| ==> s[k] == w[k];
    DecamelizeLowerRun(s, 1, |w|, [w[0]], true);
    assert s[1..|w|] == w[1..];
    assert [w[0]] + w[1..] == w;
    DecamelizeShift(Ucfirst(w), rest, 0, w, false);
  }

  /** Names whose words all have two or more lower-case letters. */
  predicate PlainWords(ws: seq<string>)
  {
    forall k :: 0 <= k < |ws| ==> |ws[k]| >= 2 && AllLower(ws[k])
  }

  /** Each word preceded by '_'. */
  function Prefixed(ws: seq<string>): string
  {
    if |ws| == 0 then "" else "_" + ws[0] + Prefixed(ws[1..])
  }

  lemma {:induction false} PrefixedJoin(ws: seq<string>)
    requires |ws| >= 1
    ensures ws[0] + Prefixed(ws[1..]) == Join(ws, "_")
  {
    if |ws| == 1 {
      assert ws[0] + "" == ws[0];
    } else {
      PrefixedJoin(ws[1..]);
      assert ws[0] + ("_" + ws[1] + Prefixed(ws[2..])) == ws[0] + "_" + (ws[1] + Prefixed(ws[1..][1..]));
    }
  }

  lemma {:induction false} DecamelizeWords(ws: seq<string>, out: string)
    requires PlainWords(ws) && out != ""
    ensures DecamelizeFrom(CamelWords(ws), 0, out, false) == out + Prefixed(ws)
  {
    if |ws| == 0 {
      assert out + "" == out;
    } else {
      var next := out + "_" + ws[0];
      DecamelizeWord(ws[0], CamelWords(ws[1..]), out, false);
      assert PlainWords(ws[1..]) by {
        assert forall k :: 0 <= k < |ws[1..]| ==> ws[1..][k] == ws[k + 1];
      }
      DecamelizeWords(ws[1..], next);
      assert next + Prefixed(ws[1..]) == out + ("_" + ws[0] + Prefixed(ws[1..]));
    }
  }

  /**
   * camelize and decamelize undo each other on names made of words of two or
   * more lower-case letters joined by '_' (`test_de_camelize` and
   * `TestDeCamelize`), so the two caches can hold both directions at once.
   */
  lemma {:induction false} CamelizeRoundTrip(ws: seq<string>)
    requires |ws| >= 1 && PlainWords(ws)
    ensures CamelizeText(Join(ws, "_")) == CamelWords(ws)
    ensures DecamelizeText(CamelWords(ws)) == Join(ws, "_")
  {
    assert forall k :: 0 <= k < |ws| ==> '_' !in ws[k] by {
      forall k | 0 <= k < |ws| ensures '_' !in ws[k] {
        assert forall j :: 0 <= j < |ws[k]| ==> ws[k][j] != '_';
      }
    }
    SplitJoin(ws, '_');
    DecamelizeFirstWord(ws[0], CamelWords(ws[1..]));
    assert PlainWords(ws[1..]) by {
      assert forall k :: 0 <= k < |ws[1..]| ==> ws[1..][k] == ws[k + 1];
    }
    DecamelizeWords(ws[1..], ws[0]);
    PrefixedJoin(ws);
  }

  // ---------------------------------------------------------------------------
  // The camelize/decamelize caches
  // ---------------------------------------------------------------------------

  /**
   * The static state of the Inflection class: the names camelize has mapped
   * (`$camelized`) and the names decamelize has mapped (`$decamelized`).
   * Every call records both directions, and a computed result that is
   * already cached for another name is refused, so the two maps always stay
   * inverse to each other.
   */
  class Inflector {
    var camelized: map<string, string>
    var decamelized: map<string, string>

    ghost predicate Valid()
      reads this
    {
      (forall k | k in camelized :: camelized[k] in decamelized && decamelized[camelized[k]] == k) &&
      (forall k | k in decamelized :: decamelized[k] in camelized && camelized[decamelized[k]] == k)
    }

    constructor ()
      ensures Valid() && camelized == map[] && decamelized == map[]
    {
      camelized := map[];
      decamelized := map[];
    }

    /** Inflection::camelize. */
    method Camelize(str: string) returns (r: Result<string, Failure>)
      requires Valid()
      modifies this
      ensures Valid()
      ensures str in old(camelized) ==> r == Success(old(camelized)[str]) && camelized == old(camelized) && decamelized == old(decamelized)
      ensures str !in old(camelized) && CamelizeText(str) in old(decamelized) ==>
        r == Failure(Raised(NewAmbiguousInflection("camelize", str, CamelizeText(str), old(decamelized)[CamelizeText(str)], ""))) &&
        camelized == old(camelized) && decamelized == old(decamelized)
      ensures str !in old(camelized) && CamelizeText(str) !in old(decamelized) ==>
        r == Success(CamelizeText(str)) &&
        camelized == old(camelized)[str := CamelizeText(str)] &&
        decamelized == old(decamelized)[CamelizeText(str) := str]
      ensures r.Success? ==> str in camelized && camelized[str] == r.value && decamelized[r.value] == str
    {
      if str in camelized {
        return Success(camelized[str]);
      }
      var ary := Split(str, '_');
      var camel := "";
      for i := 0 to |ary|
        invariant camel == CamelWords(ary[..i])
        invariant camelized == old(camelized) && decamelized == old(decamelized)
      {
        CamelWordsAppend(ary[..i], ary[i]);
        assert ary[..i + 1] == ary[..i] + [ary[i]];
        camel := camel + Ucfirst(ary[i]);
      }
      assert ary[..|ary|] == ary;
      if camel in decamelized {
        return Failure(Raised(NewAmbiguousInflection("camelize", str, camel, decamelized[camel], "")));
      }
      camelized := camelized[str := camel];
      decamelized := decamelized[camel := str];
      return Success(camel);
    }

    /** Inflection::decamelize. */
    method Decamelize(str: string) returns (r: Result<string, Failure>)
      requires Valid()
      modifies this
      ensures Valid()
      ensures str in old(decamelized) ==> r == Success(old(decamelized)[str]) && camelized == old(camelized) && decamelized == old(decamelized)
      ensures str !in old(decamelized) && DecamelizeText(str) in old(camelized) ==>
        r == Failure(Raised(NewAmbiguousInflection("decamelize", str, DecamelizeText(str), old(camelized)[DecamelizeText(str)], ""))) &&
        camelized == old(camelized) && decamelized == old(decamelized)
      ensures str !in old(decamelized) && DecamelizeText(str) !in old(camelized) ==>
        r == Success(DecamelizeText(str)) &&
        decamelized == old(decamelized)[str := DecamelizeText(str)] &&
        camelized == old(camelized)[DecamelizeText(str) := str]
      ensures r.Success? ==> str in decamelized && decamelized[str] == r.value && camelized[r.value] == str
    {
      if str in decamelized {
        return Success(decamelized[str]);
      }
      var out := "";
      var onupper := true;
      for x := 0 to |str|
        invariant DecamelizeFrom(str, x, out, onupper) == DecamelizeText(str)
        invariant camelized == old(camelized) && decamelized == old(decamelized)
      {
        ghost var next := DecamelStep(str, x, out, onupper);
        var c := str[x];
        if |out| == 0 {
          out := out + [ToLower(c)];
        } else if IsLower(c) {
          out := out + [c];
          onupper := false;
        } else if IsUpper(c) {
          var sep := if !onupper || (x + 1 < |str| && IsLower(str[x + 1])) then "_" else "";
          out := out + sep + [ToLower(c)];
          onupper := true;
        } else if IsPcreSpace(c) {
          out := out + "_";
        }
        assert (out, onupper) == next;
      }
      if out in camelized {
        return Failure(Raised(NewAmbiguousInflection("decamelize", str, out, camelized[out], "")));
      }
      decamelized := decamelized[str := out];
      camelized := camelized[out := str];
      return Success(out);
    }
  }

}
