/**
 * The singular/plural pairs of the inflection test script, each checked in
 * stages: facts about the test words, the whole-word rules, the stem rules,
 * then the regular fallback.
 */
module InflectionExamples {
  import opened Wrappers
  import opened Strings
  import opened Inflection

  lemma PluralCalfCountable() ensures '_' !in "calf" && "calf" !in Uncountable { }
  lemma PluralCalfNotIrregular() ensures LookupFirst(Irregular, "calf").None? { LookupFromAbsent(Irregular, "calf", 0); }
  lemma PluralCalfNoSuffix() ensures FirstEnding(Suffixes, "calf", false).None? { FirstEndingFromAbsent(Suffixes, "calf", false, 0); }

  lemma PluralKnifeCountable() ensures '_' !in "knife" && "knife" !in Uncountable { }
  lemma PluralKnifeNotIrregular() ensures LookupFirst(Irregular, "knife").None? { LookupFromAbsent(Irregular, "knife", 0); }
  lemma PluralKnifeNoSuffix() ensures FirstEnding(Suffixes, "knife", false).None? { FirstEndingFromAbsent(Suffixes, "knife", false, 0); }

  lemma PluralEchoCountable() ensures '_' !in "echo" && "echo" !in Uncountable { }
  lemma PluralEchoNotIrregular() ensures LookupFirst(Irregular, "echo").None? { LookupFromAbsent(Irregular, "echo", 0); }
  lemma PluralEchoNoSuffix() ensures FirstEnding(Suffixes, "echo", false).None? { FirstEndingFromAbsent(Suffixes, "echo", false, 0); }

  lemma PluralLarvaCountable() ensures '_' !in "larva" && "larva" !in Uncountable { }
  lemma PluralLarvaNotIrregular() ensures LookupFirst(Irregular, "larva").None? { LookupFromAbsent(Irregular, "larva", 0); }
  lemma PluralLarvaNoSuffix() ensures FirstEnding(Suffixes, "larva", false).None? { FirstEndingFromAbsent(Suffixes, "larva", false, 0); }

  lemma PluralAlumnusCountable() ensures '_' !in "alumnus" && "alumnus" !in Uncountable { }
  lemma PluralAlumnusNotIrregular() ensures LookupFirst(Irregular, "alumnus").None? { LookupFromAbsent(Irregular, "alumnus", 0); }
  lemma PluralAlumnusNoSuffix() ensures FirstEnding(Suffixes, "alumnus", false).None? { FirstEndingFromAbsent(Suffixes, "alumnus", false, 0); }

  lemma PluralAddendumCountable() ensures '_' !in "addendum" && "addendum" !in Uncountable { }
  lemma PluralAddendumNotIrregular() ensures LookupFirst(Irregular, "addendum").None? { LookupFromAbsent(Irregular, "addendum", 0); }
  lemma PluralAddendumNoSuffix() ensures FirstEnding(Suffixes, "addendum", false).None? { FirstEndingFromAbsent(Suffixes, "addendum", false, 0); }

  lemma PluralAnalysisCountable() ensures '_' !in "analysis" && "analysis" !in Uncountable { }
  lemma PluralAnalysisNotIrregular() ensures LookupFirst(Irregular, "analysis").None? { LookupFromAbsent(Irregular, "analysis", 0); }
  lemma PluralAnalysisNoSuffix() ensures FirstEnding(Suffixes, "analysis", false).None? { FirstEndingFromAbsent(Suffixes, "analysis", false, 0); }

  lemma PluralSolliloquyCountable() ensures '_' !in "solliloquy" && "solliloquy" !in Uncountable { }
  lemma PluralSolliloquyNotIrregular() ensures LookupFirst(Irregular, "solliloquy").None? { LookupFromAbsent(Irregular, "solliloquy", 0); }
  lemma PluralSolliloquyNoSuffix() ensures FirstEnding(Suffixes, "solliloquy", false).None? { FirstEndingFromAbsent(Suffixes, "solliloquy", false, 0); }

  lemma PluralSymphonyCountable() ensures '_' !in "symphony" && "symphony" !in Uncountable { }
  lemma PluralSymphonyNotIrregular() ensures LookupFirst(Irregular, "symphony").None? { LookupFromAbsent(Irregular, "symphony", 0); }
  lemma PluralSymphonyNoSuffix() ensures FirstEnding(Suffixes, "symphony", false).None? { FirstEndingFromAbsent(Suffixes, "symphony", false, 0); }

  lemma PluralQuizCountable() ensures '_' !in "quiz" && "quiz" !in Uncountable { }
  lemma PluralQuizNotIrregular() ensures LookupFirst(Irregular, "quiz").None? { LookupFromAbsent(Irregular, "quiz", 0); }
  lemma PluralQuizNoSuffix() ensures FirstEnding(Suffixes, "quiz", false).None? { FirstEndingFromAbsent(Suffixes, "quiz", false, 0); }

  lemma PluralChurchCountable() ensures '_' !in "church" && "church" !in Uncountable { }
  lemma PluralChurchNotIrregular() ensures LookupFirst(Irregular, "church").None? { LookupFromAbsent(Irregular, "church", 0); }
  lemma PluralChurchNoSuffix() ensures FirstEnding(Suffixes, "church", false).None? { FirstEndingFromAbsent(Suffixes, "church", false, 0); }

  lemma PluralCowCountable() ensures '_' !in "cow" && "cow" !in Uncountable { }
  lemma PluralCowNotIrregular() ensures LookupFirst(Irregular, "cow").None? { LookupFromAbsent(Irregular, "cow", 0); }
  lemma PluralCowNoSuffix() ensures FirstEnding(Suffixes, "cow", false).None? { FirstEndingFromAbsent(Suffixes, "cow", false, 0); }

  lemma PluralMouseCountable() ensures '_' !in "mouse" && "mouse" !in Uncountable { }
  lemma PluralMouseNotIrregular() ensures LookupFirst(Irregular, "mouse").None? { LookupFromAbsent(Irregular, "mouse", 0); }

  lemma PluralDoormouseCountable() ensures '_' !in "doormouse" && "doormouse" !in Uncountable { }
  lemma PluralDoormouseNotIrregular() ensures LookupFirst(Irregular, "doormouse").None? { LookupFromAbsent(Irregular, "doormouse", 0); }

  lemma PluralPersonCountable() ensures '_' !in "person" && "person" !in Uncountable { }
  lemma PluralPersonNotIrregular() ensures LookupFirst(Irregular, "person").None? { LookupFromAbsent(Irregular, "person", 0); }

  lemma PluralEquipment() ensures Pluralize("equipment") == "equipment"
  {
    Word("equipment");
  }

  lemma PluralMouseEnding() ensures FirstEnding(Suffixes, "mouse", false) == Some(5)
  {
    assert !EndsWith("mouse", "man");
    assert !EndsWith("mouse", "person");
    assert !EndsWith("mouse", "foot");
    assert !EndsWith("mouse", "goose");
    assert !EndsWith("mouse", "louse");
    assert EndsWith("mouse", "mouse");
  }

  lemma PluralMouseWhole() ensures PluralIrregular("mouse") == Some("mice")
  {
    PluralMouseCountable();
    PluralMouseNotIrregular();
    PluralMouseEnding();
    assert Suffixes[5] == ("mouse", "mice");
    assert "" + "mouse" == "mouse" && "" + ("" + "mice") == "mice";
    PluralIrregularEnding("", "", 5);
  }

  lemma PluralMouse() ensures Pluralize("mouse") == "mice"
  {
    PluralMouseWhole();
  }

  lemma PluralDoormouseEnding() ensures FirstEnding(Suffixes, "doormouse", false) == Some(5)
  {
    assert !EndsWith("doormouse", "man");
    assert !EndsWith("doormouse", "person");
    assert !EndsWith("doormouse", "foot");
    assert !EndsWith("doormouse", "goose");
    assert !EndsWith("doormouse", "louse");
    assert EndsWith("doormouse", "mouse");
  }

  lemma PluralDoormouseWhole() ensures PluralIrregular("doormouse") == Some("doormice")
  {
    PluralDoormouseCountable();
    PluralDoormouseNotIrregular();
    PluralDoormouseEnding();
    assert Suffixes[5] == ("mouse", "mice");
    assert "door" + "mouse" == "doormouse" && "" + ("door" + "mice") == "doormice";
    PluralIrregularEnding("", "door", 5);
  }

  lemma PluralDoormouse() ensures Pluralize("doormouse") == "doormice"
  {
    PluralDoormouseWhole();
  }

  lemma PluralOx() ensures Pluralize("ox") == "oxen"
  {
    var pair := Irregular[1];
    assert pair == ("ox", "oxen");
    IrregularRoundTrip("", 1);
    assert "" + pair.0 == "ox";
  }

  lemma PluralVortex() ensures Pluralize("vortex") == "vortices"
  {
    var pair := Irregular[11];
    assert pair == ("vortex", "vortices");
    IrregularRoundTrip("", 11);
    assert "" + pair.0 == "vortex";
  }

  lemma PluralCalfNotWhole() ensures PluralIrregular("calf").None?
  {
    PluralCalfCountable();
    PluralCalfNotIrregular();
    PluralCalfNoSuffix();
    PluralIrregularNone("calf");
  }

  lemma PluralCalfStem() ensures PluralStem("calf") == Some("calves")
  {
    Word("calf");
    assert WordEnds("calf", "f") && Stem("calf", "f") == "cal";
    assert FVes[0] == "cal";
    AnyEndsWithAt(FVes, "cal", 0);
    assert "calf"[..3] + "ves" == "calves";
  }

  lemma PluralCalf() ensures Pluralize("calf") == "calves"
  {
    PluralCalfNotWhole();
    PluralCalfStem();
  }

  lemma PluralKnifeNotWhole() ensures PluralIrregular("knife").None?
  {
    PluralKnifeCountable();
    PluralKnifeNotIrregular();
    PluralKnifeNoSuffix();
    PluralIrregularNone("knife");
  }

  lemma PluralKnifeStem() ensures PluralStem("knife") == Some("knives")
  {
    Word("knife");
    assert WordEnds("knife", "fe") && Stem("knife", "fe") == "kni";
    assert FeVes[0] == "kni";
    AnyEndsWithAt(FeVes, "kni", 0);
    assert "knife"[..3] + "ves" == "knives";
  }

  lemma PluralKnife() ensures Pluralize("knife") == "knives"
  {
    PluralKnifeNotWhole();
    PluralKnifeStem();
  }

  lemma PluralEchoNotWhole() ensures PluralIrregular("echo").None?
  {
    PluralEchoCountable();
    PluralEchoNotIrregular();
    PluralEchoNoSuffix();
    PluralIrregularNone("echo");
  }

  lemma PluralEchoStem() ensures PluralStem("echo") == Some("echoes")
  {
    Word("echo");
    assert WordEnds("echo", "o") && Stem("echo", "o") == "ech";
    assert OOes[0] == "ech";
    AnyEndsWithAt(OOes, "ech", 0);
    assert "echo"[..3] + "oes" == "echoes";
  }

  lemma PluralEcho() ensures Pluralize("echo") == "echoes"
  {
    PluralEchoNotWhole();
    PluralEchoStem();
  }

  lemma PluralLarvaNotWhole() ensures PluralIrregular("larva").None?
  {
    PluralLarvaCountable();
    PluralLarvaNotIrregular();
    PluralLarvaNoSuffix();
    PluralIrregularNone("larva");
  }

  lemma PluralLarvaStem() ensures PluralStem("larva") == Some("larvae")
  {
    Word("larva");
    assert WordEnds("larva", "a") && Stem("larva", "a") == "larv";
    assert AAe[1] == "larv";
    AnyEndsWithAt(AAe, "larv", 1);
    assert "larva"[..4] + "ae" == "larvae";
  }

  lemma PluralLarva() ensures Pluralize("larva") == "larvae"
  {
    PluralLarvaNotWhole();
    PluralLarvaStem();
  }

  lemma PluralAlumnusNotWhole() ensures PluralIrregular("alumnus").None?
  {
    PluralAlumnusCountable();
    PluralAlumnusNotIrregular();
    PluralAlumnusNoSuffix();
    PluralIrregularNone("alumnus");
  }

  lemma PluralAlumnusStem() ensures PluralStem("alumnus") == Some("alumni")
  {
    Word("alumnus");
    assert WordEnds("alumnus", "us") && Stem("alumnus", "us") == "alumn";
    assert UsI[0] == "alumn";
    AnyEndsWithAt(UsI, "alumn", 0);
    assert "alumnus"[..5] + "i" == "alumni";
  }

  lemma PluralAlumnus() ensures Pluralize("alumnus") == "alumni"
  {
    PluralAlumnusNotWhole();
    PluralAlumnusStem();
  }

  lemma PluralAddendumNotWhole() ensures PluralIrregular("addendum").None?
  {
    PluralAddendumCountable();
    PluralAddendumNotIrregular();
    PluralAddendumNoSuffix();
    PluralIrregularNone("addendum");
  }

  lemma PluralAddendumStem() ensures PluralStem("addendum") == Some("addenda")
  {
    Word("addendum");
    assert WordEnds("addendum", "um") && Stem("addendum", "um") == "addend";
    assert UmA[0] == "addend";
    AnyEndsWithAt(UmA, "addend", 0);
    assert "addendum"[..6] + "a" == "addenda";
  }

  lemma PluralAddendum() ensures Pluralize("addendum") == "addenda"
  {
    PluralAddendumNotWhole();
    PluralAddendumStem();
  }

  lemma PluralAnalysisNotWhole() ensures PluralIrregular("analysis").None?
  {
    PluralAnalysisCountable();
    PluralAnalysisNotIrregular();
    PluralAnalysisNoSuffix();
    PluralIrregularNone("analysis");
  }

  lemma PluralAnalysisStem() ensures PluralStem("analysis") == Some("analyses")
  {
    Word("analysis");
    assert WordEnds("analysis", "is") && Stem("analysis", "is") == "analys";
    assert IsEs[0] == "analys";
    AnyEndsWithAt(IsEs, "analys", 0);
    assert "analysis"[..6] + "es" == "analyses";
  }

  lemma PluralAnalysis() ensures Pluralize("analysis") == "analyses"
  {
    PluralAnalysisNotWhole();
    PluralAnalysisStem();
  }

  lemma PluralSomePersonEnding() ensures FirstEnding(Suffixes, "person", false) == Some(1)
  {
    assert !EndsWith("person", "man");
    assert EndsWith("person", "person");
  }

  lemma PluralSomePersonWhole() ensures PluralIrregular("some_person") == Some("some_people")
  {
    PluralPersonCountable();
    PluralPersonNotIrregular();
    PluralSomePersonEnding();
    assert Suffixes[1] == ("person", "people");
    assert "" + "person" == "person" && "some_" + ("" + "person") == "some_person";
    assert "some_" + ("" + "people") == "some_people";
    PluralIrregularEnding("some_", "", 1);
  }

  lemma PluralSomePerson() ensures Pluralize("some_person") == "some_people"
  {
    PluralSomePersonWhole();
  }

  lemma PluralSolliloquyNotWhole() ensures PluralIrregular("solliloquy").None?
  {
    PluralSolliloquyCountable();
    PluralSolliloquyNotIrregular();
    PluralSolliloquyNoSuffix();
    PluralIrregularNone("solliloquy");
  }

  lemma PluralSolliloquyStem() ensures PluralStem("solliloquy").None?
  {
    PluralStemNone("solliloquy");
  }

  lemma PluralSolliloquyRegular() ensures PluralRegular("solliloquy") == "solliloquys"
  {
  }

  lemma PluralSolliloquy() ensures Pluralize("solliloquy") == "solliloquys"
  {
    PluralSolliloquyNotWhole();
    PluralSolliloquyStem();
    PluralSolliloquyRegular();
  }

  lemma PluralSymphonyNotWhole() ensures PluralIrregular("symphony").None?
  {
    PluralSymphonyCountable();
    PluralSymphonyNotIrregular();
    PluralSymphonyNoSuffix();
    PluralIrregularNone("symphony");
  }

  lemma PluralSymphonyStem() ensures PluralStem("symphony").None?
  {
    PluralStemNone("symphony");
  }

  lemma PluralSymphonyRegular() ensures PluralRegular("symphony") == "symphonies"
  {
  }

  lemma PluralSymphony() ensures Pluralize("symphony") == "symphonies"
  {
    PluralSymphonyNotWhole();
    PluralSymphonyStem();
    PluralSymphonyRegular();
  }

  lemma PluralQuizNotWhole() ensures PluralIrregular("quiz").None?
  {
    PluralQuizCountable();
    PluralQuizNotIrregular();
    PluralQuizNoSuffix();
    PluralIrregularNone("quiz");
  }

  lemma PluralQuizStem() ensures PluralStem("quiz").None?
  {
    PluralStemNone("quiz");
  }

  lemma PluralQuizRegular() ensures PluralRegular("quiz") == "quizzes"
  {
  }

  lemma PluralQuiz() ensures Pluralize("quiz") == "quizzes"
  {
    PluralQuizNotWhole();
    PluralQuizStem();
    PluralQuizRegular();
  }

  lemma PluralChurchNotWhole() ensures PluralIrregular("church").None?
  {
    PluralChurchCountable();
    PluralChurchNotIrregular();
    PluralChurchNoSuffix();
    PluralIrregularNone("church");
  }

  lemma PluralChurchStem() ensures PluralStem("church").None?
  {
    PluralStemNone("church");
  }

  lemma PluralChurchRegular() ensures PluralRegular("church") == "churches"
  {
  }

  lemma PluralChurch() ensures Pluralize("church") == "churches"
  {
    PluralChurchNotWhole();
    PluralChurchStem();
    PluralChurchRegular();
  }

  lemma PluralCowNotWhole() ensures PluralIrregular("cow").None?
  {
    PluralCowCountable();
    PluralCowNotIrregular();
    PluralCowNoSuffix();
    PluralIrregularNone("cow");
  }

  lemma PluralCowStem() ensures PluralStem("cow").None?
  {
    PluralStemNone("cow");
  }

  lemma PluralCowRegular() ensures PluralRegular("cow") == "cows"
  {
  }

  lemma PluralCow() ensures Pluralize("cow") == "cows"
  {
    PluralCowNotWhole();
    PluralCowStem();
    PluralCowRegular();
  }

  /** Pluralize reproduces every singular/plural pair of the inflection test script. */
  lemma PluralizeExamples()
    ensures Pluralize("equipment") == "equipment"
    ensures Pluralize("mouse") == "mice"
    ensures Pluralize("doormouse") == "doormice"
    ensures Pluralize("ox") == "oxen"
    ensures Pluralize("vortex") == "vortices"
    ensures Pluralize("calf") == "calves"
    ensures Pluralize("knife") == "knives"
    ensures Pluralize("echo") == "echoes"
    ensures Pluralize("larva") == "larvae"
    ensures Pluralize("alumnus") == "alumni"
    ensures Pluralize("addendum") == "addenda"
    ensures Pluralize("analysis") == "analyses"
    ensures Pluralize("some_person") == "some_people"
    ensures Pluralize("solliloquy") == "solliloquys"
    ensures Pluralize("symphony") == "symphonies"
    ensures Pluralize("quiz") == "quizzes"
    ensures Pluralize("church") == "churches"
    ensures Pluralize("cow") == "cows"
  {
    PluralEquipment();
    PluralMouse();
    PluralDoormouse();
    PluralOx();
    PluralVortex();
    PluralCalf();
    PluralKnife();
    PluralEcho();
    PluralLarva();
    PluralAlumnus();
    PluralAddendum();
    PluralAnalysis();
    PluralSomePerson();
    PluralSolliloquy();
    PluralSymphony();
    PluralQuiz();
    PluralChurch();
    PluralCow();
  }

  lemma SingularWolvesCountable() ensures '_' !in "wolves" && "wolves" !in Uncountable { }
  lemma SingularWolvesNotIrregular() ensures SearchFirst(Irregular, "wolves").None? { SearchFromAbsent(Irregular, "wolves", 0); }
  lemma SingularWolvesNoSuffix() ensures FirstEnding(Suffixes, "wolves", true).None? { FirstEndingFromAbsent(Suffixes, "wolves", true, 0); }

  lemma SingularWivesCountable() ensures '_' !in "wives" && "wives" !in Uncountable { }
  lemma SingularWivesNotIrregular() ensures SearchFirst(Irregular, "wives").None? { SearchFromAbsent(Irregular, "wives", 0); }
  lemma SingularWivesNoSuffix() ensures FirstEnding(Suffixes, "wives", true).None? { FirstEndingFromAbsent(Suffixes, "wives", true, 0); }

  lemma SingularVertebraeCountable() ensures '_' !in "vertebrae" && "vertebrae" !in Uncountable { }
  lemma SingularVertebraeNotIrregular() ensures SearchFirst(Irregular, "vertebrae").None? { SearchFromAbsent(Irregular, "vertebrae", 0); }
  lemma SingularVertebraeNoSuffix() ensures FirstEnding(Suffixes, "vertebrae", true).None? { FirstEndingFromAbsent(Suffixes, "vertebrae", true, 0); }

  lemma SingularNucleiCountable() ensures '_' !in "nuclei" && "nuclei" !in Uncountable { }
  lemma SingularNucleiNotIrregular() ensures SearchFirst(Irregular, "nuclei").None? { SearchFromAbsent(Irregular, "nuclei", 0); }
  lemma SingularNucleiNoSuffix() ensures FirstEnding(Suffixes, "nuclei", true).None? { FirstEndingFromAbsent(Suffixes, "nuclei", true, 0); }

  lemma SingularErrataCountable() ensures '_' !in "errata" && "errata" !in Uncountable { }
  lemma SingularErrataNotIrregular() ensures SearchFirst(Irregular, "errata").None? { SearchFromAbsent(Irregular, "errata", 0); }
  lemma SingularErrataNoSuffix() ensures FirstEnding(Suffixes, "errata", true).None? { FirstEndingFromAbsent(Suffixes, "errata", true, 0); }

  lemma SingularHypothesesCountable() ensures '_' !in "hypotheses" && "hypotheses" !in Uncountable { }
  lemma SingularHypothesesNotIrregular() ensures SearchFirst(Irregular, "hypotheses").None? { SearchFromAbsent(Irregular, "hypotheses", 0); }
  lemma SingularHypothesesNoSuffix() ensures FirstEnding(Suffixes, "hypotheses", true).None? { FirstEndingFromAbsent(Suffixes, "hypotheses", true, 0); }

  lemma SingularSolliloquysCountable() ensures '_' !in "solliloquys" && "solliloquys" !in Uncountable { }
  lemma SingularSolliloquysNotIrregular() ensures SearchFirst(Irregular, "solliloquys").None? { SearchFromAbsent(Irregular, "solliloquys", 0); }
  lemma SingularSolliloquysNoSuffix() ensures FirstEnding(Suffixes, "solliloquys", true).None? { FirstEndingFromAbsent(Suffixes, "solliloquys", true, 0); }

  lemma SingularHarmoniesCountable() ensures '_' !in "harmonies" && "harmonies" !in Uncountable { }
  lemma SingularHarmoniesNotIrregular() ensures SearchFirst(Irregular, "harmonies").None? { SearchFromAbsent(Irregular, "harmonies", 0); }
  lemma SingularHarmoniesNoSuffix() ensures FirstEnding(Suffixes, "harmonies", true).None? { FirstEndingFromAbsent(Suffixes, "harmonies", true, 0); }

  lemma SingularBoxesCountable() ensures '_' !in "boxes" && "boxes" !in Uncountable { }
  lemma SingularBoxesNotIrregular() ensures SearchFirst(Irregular, "boxes").None? { SearchFromAbsent(Irregular, "boxes", 0); }
  lemma SingularBoxesNoSuffix() ensures FirstEnding(Suffixes, "boxes", true).None? { FirstEndingFromAbsent(Suffixes, "boxes", true, 0); }

  lemma SingularSlipsCountable() ensures '_' !in "slips" && "slips" !in Uncountable { }
  lemma SingularSlipsNotIrregular() ensures SearchFirst(Irregular, "slips").None? { SearchFromAbsent(Irregular, "slips", 0); }
  lemma SingularSlipsNoSuffix() ensures FirstEnding(Suffixes, "slips", true).None? { FirstEndingFromAbsent(Suffixes, "slips", true, 0); }

  lemma SingularLiceCountable() ensures '_' !in "lice" && "lice" !in Uncountable { }
  lemma SingularLiceNotIrregular() ensures SearchFirst(Irregular, "lice").None? { SearchFromAbsent(Irregular, "lice", 0); }

  lemma SingularBarkliceCountable() ensures '_' !in "barklice" && "barklice" !in Uncountable { }
  lemma SingularBarkliceNotIrregular() ensures SearchFirst(Irregular, "barklice").None? { SearchFromAbsent(Irregular, "barklice", 0); }

  lemma SingularTeethCountable() ensures '_' !in "teeth" && "teeth" !in Uncountable { }
  lemma SingularTeethNotIrregular() ensures SearchFirst(Irregular, "teeth").None? { SearchFromAbsent(Irregular, "teeth", 0); }

  lemma SingularFish() ensures Singularize("fish") == "fish"
  {
    Word("fish");
  }

  lemma SingularLiceEnding() ensures FirstEnding(Suffixes, "lice", true) == Some(4)
  {
    assert !EndsWith("lice", "men");
    assert !EndsWith("lice", "people");
    assert !EndsWith("lice", "feet");
    assert !EndsWith("lice", "geese");
    assert EndsWith("lice", "lice");
  }

  lemma SingularLiceWhole() ensures SingularIrregular("lice") == Some("louse")
  {
    SingularLiceCountable();
    SingularLiceNotIrregular();
    SingularLiceEnding();
    assert Suffixes[4] == ("louse", "lice");
    assert "" + "lice" == "lice" && "" + ("" + "louse") == "louse";
    SingularIrregularEnding("", "", 4);
  }

  lemma SingularLice() ensures Singularize("lice") == "louse"
  {
    SingularLiceWhole();
  }

  lemma SingularBarkliceEnding() ensures FirstEnding(Suffixes, "barklice", true) == Some(4)
  {
    assert !EndsWith("barklice", "men");
    assert !EndsWith("barklice", "people");
    assert !EndsWith("barklice", "feet");
    assert !EndsWith("barklice", "geese");
    assert EndsWith("barklice", "lice");
  }

  lemma SingularBarkliceWhole() ensures SingularIrregular("barklice") == Some("barklouse")
  {
    SingularBarkliceCountable();
    SingularBarkliceNotIrregular();
    SingularBarkliceEnding();
    assert Suffixes[4] == ("louse", "lice");
    assert "bark" + "lice" == "barklice" && "" + ("bark" + "louse") == "barklouse";
    SingularIrregularEnding("", "bark", 4);
  }

  lemma SingularBarklice() ensures Singularize("barklice") == "barklouse"
  {
    SingularBarkliceWhole();
  }

  lemma SingularChildren() ensures Singularize("children") == "child"
  {
    var pair := Irregular[0];
    assert pair == ("child", "children");
    IrregularRoundTrip("", 0);
    assert "" + pair.1 == "children";
  }

  lemma SingularVortices() ensures Singularize("vortices") == "vortex"
  {
    var pair := Irregular[11];
    assert pair == ("vortex", "vortices");
    IrregularRoundTrip("", 11);
    assert "" + pair.1 == "vortices";
  }

  lemma SingularWolvesNotWhole() ensures SingularIrregular("wolves").None?
  {
    SingularWolvesCountable();
    SingularWolvesNotIrregular();
    SingularWolvesNoSuffix();
    SingularIrregularNone("wolves");
  }

  lemma SingularWolvesStem() ensures SingularStem("wolves") == Some("wolf")
  {
    Word("wolves");
    assert WordEnds("wolves", "ves") && Stem("wolves", "ves") == "wol";
    AnyEndsWithFromAbsent(FeVes, "wol", 0);
    assert FVes[11] == "wol";
    AnyEndsWithAt(FVes, "wol", 11);
    assert "wolves"[..3] + "f" == "wolf";
  }

  lemma SingularWolves() ensures Singularize("wolves") == "wolf"
  {
    SingularWolvesNotWhole();
    SingularWolvesStem();
  }

  lemma SingularWivesNotWhole() ensures SingularIrregular("wives").None?
  {
    SingularWivesCountable();
    SingularWivesNotIrregular();
    SingularWivesNoSuffix();
    SingularIrregularNone("wives");
  }

  lemma SingularWivesStem() ensures SingularStem("wives") == Some("wife")
  {
    Word("wives");
    assert WordEnds("wives", "ves") && Stem("wives", "ves") == "wi";
    assert FeVes[2] == "wi";
    AnyEndsWithAt(FeVes, "wi", 2);
    assert "wives"[..2] + "fe" == "wife";
  }

  lemma SingularWives() ensures Singularize("wives") == "wife"
  {
    SingularWivesNotWhole();
    SingularWivesStem();
  }

  lemma SingularVertebraeNotWhole() ensures SingularIrregular("vertebrae").None?
  {
    SingularVertebraeCountable();
    SingularVertebraeNotIrregular();
    SingularVertebraeNoSuffix();
    SingularIrregularNone("vertebrae");
  }

  lemma SingularVertebraeStem() ensures SingularStem("vertebrae") == Some("vertebra")
  {
    Word("vertebrae");
    assert WordEnds("vertebrae", "ae") && Stem("vertebrae", "ae") == "vertebr";
    assert AAe[3] == "vertebr";
    AnyEndsWithAt(AAe, "vertebr", 3);
    assert "vertebrae"[..7] + "a" == "vertebra";
  }

  lemma SingularVertebrae() ensures Singularize("vertebrae") == "vertebra"
  {
    SingularVertebraeNotWhole();
    SingularVertebraeStem();
  }

  lemma SingularNucleiNotWhole() ensures SingularIrregular("nuclei").None?
  {
    SingularNucleiCountable();
    SingularNucleiNotIrregular();
    SingularNucleiNoSuffix();
    SingularIrregularNone("nuclei");
  }

  lemma SingularNucleiStem() ensures SingularStem("nuclei") == Some("nucleus")
  {
    Word("nuclei");
    assert WordEnds("nuclei", "i") && Stem("nuclei", "i") == "nucle";
    assert UsI[3] == "nucle";
    AnyEndsWithAt(UsI, "nucle", 3);
    assert "nuclei"[..5] + "us" == "nucleus";
  }

  lemma SingularNuclei() ensures Singularize("nuclei") == "nucleus"
  {
    SingularNucleiNotWhole();
    SingularNucleiStem();
  }

  lemma SingularErrataNotWhole() ensures SingularIrregular("errata").None?
  {
    SingularErrataCountable();
    SingularErrataNotIrregular();
    SingularErrataNoSuffix();
    SingularIrregularNone("errata");
  }

  lemma SingularErrataStem() ensures SingularStem("errata") == Some("erratum")
  {
    Word("errata");
    assert WordEnds("errata", "a") && Stem("errata", "a") == "errat";
    assert UmA[3] == "errat";
    AnyEndsWithAt(UmA, "errat", 3);
    assert "errata"[..5] + "um" == "erratum";
  }

  lemma SingularErrata() ensures Singularize("errata") == "erratum"
  {
    SingularErrataNotWhole();
    SingularErrataStem();
  }

  lemma SingularHypothesesNotWhole() ensures SingularIrregular("hypotheses").None?
  {
    SingularHypothesesCountable();
    SingularHypothesesNotIrregular();
    SingularHypothesesNoSuffix();
    SingularIrregularNone("hypotheses");
  }

  lemma SingularHypothesesStem() ensures SingularStem("hypotheses") == Some("hypothesis")
  {
    Word("hypotheses");
    assert WordEnds("hypotheses", "es") && Stem("hypotheses", "es") == "hypothes";
    assert IsEs[6] == "hypothes";
    AnyEndsWithAt(IsEs, "hypothes", 6);
    assert "hypotheses"[..8] + "is" == "hypothesis";
  }

  lemma SingularHypotheses() ensures Singularize("hypotheses") == "hypothesis"
  {
    SingularHypothesesNotWhole();
    SingularHypothesesStem();
  }

  lemma SingularBackTeethEnding() ensures FirstEnding(Suffixes, "teeth", true) == Some(6)
  {
    assert !EndsWith("teeth", "men");
    assert !EndsWith("teeth", "people");
    assert !EndsWith("teeth", "feet");
    assert !EndsWith("teeth", "geese");
    assert !EndsWith("teeth", "lice");
    assert !EndsWith("teeth", "mice");
    assert EndsWith("teeth", "teeth");
  }

  lemma SingularBackTeethWhole() ensures SingularIrregular("back_teeth") == Some("back_tooth")
  {
    SingularTeethCountable();
    SingularTeethNotIrregular();
    SingularBackTeethEnding();
    assert Suffixes[6] == ("tooth", "teeth");
    assert "" + "teeth" == "teeth" && "back_" + ("" + "teeth") == "back_teeth";
    assert "back_" + ("" + "tooth") == "back_tooth";
    SingularIrregularEnding("back_", "", 6);
  }

  lemma SingularBackTeeth() ensures Singularize("back_teeth") == "back_tooth"
  {
    SingularBackTeethWhole();
  }

  lemma SingularSolliloquysNotWhole() ensures SingularIrregular("solliloquys").None?
  {
    SingularSolliloquysCountable();
    SingularSolliloquysNotIrregular();
    SingularSolliloquysNoSuffix();
    SingularIrregularNone("solliloquys");
  }

  lemma SingularSolliloquysStem() ensures SingularStem("solliloquys").None?
  {
    SingularSolliloquysCountable();
    SingularStemNone("solliloquys");
  }

  lemma SingularSolliloquysRegular() ensures SingularRegular("solliloquys") == "solliloquy"
  {
  }

  lemma SingularSolliloquys() ensures Singularize("solliloquys") == "solliloquy"
  {
    SingularSolliloquysNotWhole();
    SingularSolliloquysStem();
    SingularSolliloquysRegular();
  }

  lemma SingularHarmoniesNotWhole() ensures SingularIrregular("harmonies").None?
  {
    SingularHarmoniesCountable();
    SingularHarmoniesNotIrregular();
    SingularHarmoniesNoSuffix();
    SingularIrregularNone("harmonies");
  }

  lemma SingularHarmoniesUnlistedIsEs() ensures !AnyEndsWith(IsEs, "harmoni") { AnyEndsWithFromAbsent(IsEs, "harmoni", 0); }
  lemma SingularHarmoniesStem() ensures SingularStem("harmonies").None?
  {
    SingularHarmoniesUnlistedIsEs();
    assert "harmonies"[..|"harmonies"| - 2] == "harmoni";
    SingularStemEs("harmonies");
  }

  lemma SingularHarmoniesRegular() ensures SingularRegular("harmonies") == "harmony"
  {
  }

  lemma SingularHarmonies() ensures Singularize("harmonies") == "harmony"
  {
    SingularHarmoniesNotWhole();
    SingularHarmoniesStem();
    SingularHarmoniesRegular();
  }

  lemma SingularBoxesNotWhole() ensures SingularIrregular("boxes").None?
  {
    SingularBoxesCountable();
    SingularBoxesNotIrregular();
    SingularBoxesNoSuffix();
    SingularIrregularNone("boxes");
  }

  lemma SingularBoxesUnlistedIsEs() ensures !AnyEndsWith(IsEs, "box") { AnyEndsWithFromAbsent(IsEs, "box", 0); }
  lemma SingularBoxesStem() ensures SingularStem("boxes").None?
  {
    SingularBoxesUnlistedIsEs();
    assert "boxes"[..|"boxes"| - 2] == "box";
    SingularStemEs("boxes");
  }

  lemma SingularBoxesRegular() ensures SingularRegular("boxes") == "box"
  {
  }

  lemma SingularBoxes() ensures Singularize("boxes") == "box"
  {
    SingularBoxesNotWhole();
    SingularBoxesStem();
    SingularBoxesRegular();
  }

  lemma SingularSlipsNotWhole() ensures SingularIrregular("slips").None?
  {
    SingularSlipsCountable();
    SingularSlipsNotIrregular();
    SingularSlipsNoSuffix();
    SingularIrregularNone("slips");
  }

  lemma SingularSlipsStem() ensures SingularStem("slips").None?
  {
    SingularStemNone("slips");
  }

  lemma SingularSlipsRegular() ensures SingularRegular("slips") == "slip"
  {
  }

  lemma SingularSlips() ensures Singularize("slips") == "slip"
  {
    SingularSlipsNotWhole();
    SingularSlipsStem();
    SingularSlipsRegular();
  }

  /** Singularize reproduces every plural/singular pair of the inflection test script. */
  lemma SingularizeExamples()
    ensures Singularize("fish") == "fish"
    ensures Singularize("lice") == "louse"
    ensures Singularize("barklice") == "barklouse"
    ensures Singularize("children") == "child"
    ensures Singularize("vortices") == "vortex"
    ensures Singularize("wolves") == "wolf"
    ensures Singularize("wives") == "wife"
    ensures Singularize("vertebrae") == "vertebra"
    ensures Singularize("nuclei") == "nucleus"
    ensures Singularize("errata") == "erratum"
    ensures Singularize("hypotheses") == "hypothesis"
    ensures Singularize("back_teeth") == "back_tooth"
    ensures Singularize("solliloquys") == "solliloquy"
    ensures Singularize("harmonies") == "harmony"
    ensures Singularize("boxes") == "box"
    ensures Singularize("slips") == "slip"
  {
    SingularFish();
    SingularLice();
    SingularBarklice();
    SingularChildren();
    SingularVortices();
    SingularWolves();
    SingularWives();
    SingularVertebrae();
    SingularNuclei();
    SingularErrata();
    SingularHypotheses();
    SingularBackTeeth();
    SingularSolliloquys();
    SingularHarmonies();
    SingularBoxes();
    SingularSlips();
  }
}
