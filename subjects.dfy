/** The subject normalizer: canonicalises free-text subject names against a
    fixed allow-list, falling back to a table of partner aliases. */
module Subjects {
  import opened Wrappers
  import opened Text

  /** The allow-list, in Python's sort order (the order `sorted(...)` gives). */
  const AllowedList: seq<string> := ["Compiler Design", "DAA", "Deep Learning", "JAVA", "Web Development"]

  const Allowed: set<string> := {"Compiler Design", "DAA", "Deep Learning", "JAVA", "Web Development"}

  /** Partner spellings, keyed by their normalised key. */
  const Aliases: map<string, string> := map[
    "full stack web development" := "Web Development",
    "fullstack web development" := "Web Development",
    "fswd" := "Web Development",
    "web dev" := "Web Development",
    "webdevelopment" := "Web Development",
    "compilerdesign" := "Compiler Design",
    "cd" := "Compiler Design"
  ]

  /** `_norm_key`: lower-case and collapse whitespace runs to one space. */
  function NormKey(value: string): string {
    Lower(Join(" ", Words(Strip(value))))
  }

  /** The first entry of `list` whose key is `key`: the loop over the
      allow-list with its early return. */
  function FindCanonical(list: seq<string>, key: string): (r: Option<string>)
    ensures r.Some? ==> r.value in list && NormKey(r.value) == key
    ensures r.None? ==> forall s :: s in list ==> NormKey(s) != key
  {
    if list == [] then None
    else if NormKey(list[0]) == key then Some(list[0])
    else FindCanonical(list[1..], key)
  }

  /** `normalize_subject`: "" for blank input, otherwise the allowed subject
      whose key matches, else the alias target, else the stripped input. */
  function Normalize(value: string): (r: string)
    ensures r == "" <==> Blank(value)
    ensures r == "" || r in Allowed || r == Strip(value)
  {
    AliasTargetsAllowed();
    AllowedListIsAllowed();
    var raw := Strip(value);
    if raw == "" then ""
    else
      var key := NormKey(raw);
      var canonical := FindCanonical(AllowedList, key);
      if canonical.Some? then canonical.value
      else if key in Aliases && Aliases[key] != "" then Aliases[key]
      else raw
  }

  /** `is_allowed_subject` */
  predicate IsAllowed(value: string) {
    Normalize(value) in Allowed
  }

  // ---------------------------------------------------------------------
  // Facts about the two tables

  /** Every allowed subject is at least three characters long. */
  lemma AllowedLengths()
    ensures forall s :: s in Allowed ==> |s| >= 3
  {
  }

  lemma AllowedListIsAllowed()
    ensures forall s :: s in AllowedList <==> s in Allowed
    ensures "" !in Allowed
  {
  }

  /** Every alias target is an allowed subject. */
  lemma AliasTargetsAllowed()
    ensures forall k :: k in Aliases ==> Aliases[k] in Allowed
  {
  }

  /** The keys of the five allowed subjects. */
  predicate IsAllowedKey(key: string) {
    key in {"compiler design", "daa", "deep learning", "java", "web development"}
  }

  /** No alias key is the key of an allowed subject, so the alias table is
      only consulted for spellings the allow-list does not already cover. */
  lemma AliasKeysNotAllowedKeys()
    ensures forall k :: k in Aliases ==> !IsAllowedKey(k)
  {
  }

  lemma AliasFacts(k: string)
    requires k in Aliases
    ensures k != "" && !IsAllowedKey(k) && Aliases[k] in Allowed && Aliases[k] != ""
  {
    AliasKeysNotAllowedKeys();
    AliasTargetsAllowed();
    AllowedListIsAllowed();
  }

  // ---------------------------------------------------------------------
  // Keys of concrete strings

  /** The key of a whitespace-free word is the word lower-cased. */
  lemma NormKeyOfWord(w: string)
    requires IsWord(w)
    ensures NormKey(w) == Lower(w)
  {
    StripNoop(w);
    WordsOfOne(w);
  }

  lemma KeyOfWord(w: string, k: string)
    requires IsWord(w) && Lower(w) == k
    ensures NormKey(w) == k
  {
    NormKeyOfWord(w);
  }

  lemma LowerOfTwo(a: string, b: string, ka: string, kb: string)
    requires Lower(a) == ka && Lower(b) == kb
    ensures Lower(a + " " + b) == ka + " " + kb
  {
    LowerAppend(a + " ", b);
    LowerAppend(a, " ");
  }

  /** The key of two words separated by any whitespace, with any whitespace
      around them, is both words lower-cased and joined by one space. */
  lemma KeyOfTwoWords(s: string, pre: string, a: string, mid: string, b: string, post: string,
                       ka: string, kb: string, k: string)
    requires IsWord(a) && IsWord(b) && Lower(a) == ka && Lower(b) == kb
    requires AllSpace(pre) && AllSpace(mid) && mid != [] && AllSpace(post)
    requires s == pre + a + mid + b + post && k == ka + " " + kb
    ensures NormKey(s) == k
  {
    WordsOfSpaced(s, pre, a, mid, b, post);
    WordsStrip(s);
    assert [a, b][1..] == [b];
    assert Join(" ", Words(Strip(s))) == a + " " + b;
    LowerOfTwo(a, b, ka, kb);
  }

  /** The key of a two-word title such as "Compiler Design". */
  lemma KeyOfTitle(s: string, a: string, b: string, ka: string, kb: string, k: string)
    requires IsWord(a) && IsWord(b) && Lower(a) == ka && Lower(b) == kb
    requires s == a + " " + b && k == ka + " " + kb
    ensures NormKey(s) == k
  {
    assert s == [] + a + " " + b + [];
    KeyOfTwoWords(s, [], a, " ", b, [], ka, kb, k);
  }

  lemma PartsCompilerDesign()
    ensures IsWord("Compiler") && IsWord("Design")
    ensures Lower("Compiler") == "compiler" && Lower("Design") == "design"
    ensures "Compiler Design" == "Compiler" + " " + "Design"
    ensures "compiler design" == "compiler" + " " + "design"
  {
  }

  lemma KeyCompilerDesign(s: string)
    requires s == "Compiler Design"
    ensures NormKey(s) == "compiler design"
  {
    PartsCompilerDesign();
    KeyOfTitle(s, "Compiler", "Design", "compiler", "design", "compiler design");
  }

  lemma PartsDeepLearning()
    ensures IsWord("Deep") && IsWord("Learning")
    ensures Lower("Deep") == "deep" && Lower("Learning") == "learning"
    ensures "Deep Learning" == "Deep" + " " + "Learning"
    ensures "deep learning" == "deep" + " " + "learning"
  {
  }

  lemma KeyDeepLearning(s: string)
    requires s == "Deep Learning"
    ensures NormKey(s) == "deep learning"
  {
    PartsDeepLearning();
    KeyOfTitle(s, "Deep", "Learning", "deep", "learning", "deep learning");
  }

  lemma PartsWebDevelopment()
    ensures IsWord("Web") && IsWord("Development")
    ensures Lower("Web") == "web" && Lower("Development") == "development"
    ensures "Web Development" == "Web" + " " + "Development"
    ensures "web development" == "web" + " " + "development"
  {
  }

  lemma KeyWebDevelopment(s: string)
    requires s == "Web Development"
    ensures NormKey(s) == "web development"
  {
    PartsWebDevelopment();
    KeyOfTitle(s, "Web", "Development", "web", "development", "web development");
  }

  lemma KeyDAA(s: string)
    requires s == "DAA"
    ensures NormKey(s) == "daa"
  {
    assert IsWord("DAA") && Lower("DAA") == "daa";
    KeyOfWord(s, "daa");
  }

  lemma KeyJAVA(s: string)
    requires s == "JAVA"
    ensures NormKey(s) == "java"
  {
    assert IsWord("JAVA") && Lower("JAVA") == "java";
    KeyOfWord(s, "java");
  }

  /** Each allowed subject's key, and which subject owns which key. */
  lemma AllowedKeys(s: string)
    requires s in Allowed
    ensures IsAllowedKey(NormKey(s))
    ensures NormKey(s) == "compiler design" <==> s == "Compiler Design"
    ensures NormKey(s) == "daa" <==> s == "DAA"
    ensures NormKey(s) == "deep learning" <==> s == "Deep Learning"
    ensures NormKey(s) == "java" <==> s == "JAVA"
    ensures NormKey(s) == "web development" <==> s == "Web Development"
  {
    if s == "Compiler Design" {
      KeyCompilerDesign(s);
    } else if s == "DAA" {
      KeyDAA(s);
    } else if s == "Deep Learning" {
      KeyDeepLearning(s);
    } else if s == "JAVA" {
      KeyJAVA(s);
    } else {
      KeyWebDevelopment(s);
    }
  }

  /** No two allowed subjects share a key, so the order in which the
      allow-list is searched cannot change the match. */
  lemma DistinctKeys(s: string, t: string)
    requires s in Allowed && t in Allowed && NormKey(s) == NormKey(t)
    ensures s == t
  {
    AllowedKeys(s);
    AllowedKeys(t);
  }

  // ---------------------------------------------------------------------
  // What normalisation returns

  /** Stripping first does not change the key. */
  lemma NormKeyStrip(value: string)
    ensures NormKey(Strip(value)) == NormKey(value)
  {
    StripIdempotent(value);
  }

  /** Blank input has the empty key. */
  lemma BlankKey(value: string)
    requires Blank(value)
    ensures NormKey(value) == ""
  {
  }

  /** The allowed subject that owns an allowed key. */
  lemma OwnerOfKey(key: string) returns (s: string)
    requires IsAllowedKey(key)
    ensures s in Allowed && NormKey(s) == key
  {
    if key == "compiler design" {
      s := "Compiler Design";
      KeyCompilerDesign(s);
    } else if key == "daa" {
      s := "DAA";
      KeyDAA(s);
    } else if key == "deep learning" {
      s := "Deep Learning";
      KeyDeepLearning(s);
    } else if key == "java" {
      s := "JAVA";
      KeyJAVA(s);
    } else {
      s := "Web Development";
      KeyWebDevelopment(s);
    }
  }

  /** However the allow-list is ordered, the search finds the same subject:
      the set's iteration order does not matter. */
  lemma OrderIrrelevant(order: seq<string>, key: string)
    requires forall s :: s in order <==> s in Allowed
    ensures FindCanonical(order, key) == FindCanonical(AllowedList, key)
  {
    var r1 := FindCanonical(order, key);
    var r2 := FindCanonical(AllowedList, key);
    AllowedListIsAllowed();
    if r1.Some? && r2.Some? {
      DistinctKeys(r1.value, r2.value);
    }
  }

  /** Input whose key is that of an allowed subject normalises to that subject. */
  lemma CanonicalMatch(value: string, s: string)
    requires s in Allowed && NormKey(value) == NormKey(s)
    ensures Normalize(value) == s
  {
    AllowedKeys(s);
    assert !Blank(value) by {
      if Blank(value) {
        BlankKey(value);
      }
    }
    NormKeyStrip(value);
    AllowedListIsAllowed();
    var c := FindCanonical(AllowedList, NormKey(s));
    assert c.Some?;
    DistinctKeys(c.value, s);
  }

  /** Input whose key is an alias key normalises to the alias target. */
  lemma AliasMatch(value: string)
    requires NormKey(value) in Aliases
    ensures Normalize(value) == Aliases[NormKey(value)]
  {
    var key := NormKey(value);
    AliasFacts(key);
    assert !Blank(value) by {
      if Blank(value) {
        BlankKey(value);
      }
    }
    NormKeyStrip(value);
    var c := FindCanonical(AllowedList, key);
    if c.Some? {
      AllowedKeys(c.value);
    }
  }

  /** Input matching neither an allowed key nor an alias is returned
      stripped, and is not an allowed subject. */
  lemma UnknownUnchanged(value: string)
    requires !Blank(value)
    requires !IsAllowedKey(NormKey(value)) && NormKey(value) !in Aliases
    ensures Normalize(value) == Strip(value)
    ensures !IsAllowed(value)
  {
    var raw := Strip(value);
    NormKeyStrip(value);
    AllowedListIsAllowed();
    var c := FindCanonical(AllowedList, NormKey(raw));
    if c.Some? {
      AllowedKeys(c.value);
    }
    if raw in Allowed {
      AllowedKeys(raw);
    }
  }

  /** `is_allowed_subject(x)` holds exactly when the key of `x` is the key of
      an allowed subject or an alias key. */
  lemma IsAllowedIff(value: string)
    ensures IsAllowed(value) <==> IsAllowedKey(NormKey(value)) || NormKey(value) in Aliases
  {
    var key := NormKey(value);
    if IsAllowedKey(key) {
      var s := OwnerOfKey(key);
      CanonicalMatch(value, s);
    } else if key in Aliases {
      AliasMatch(value);
      AliasFacts(key);
    } else if Blank(value) {
      AllowedListIsAllowed();
    } else {
      UnknownUnchanged(value);
    }
  }

  /** Normalising twice is normalising once. */
  lemma NormalizeIdempotent(value: string)
    ensures Normalize(Normalize(value)) == Normalize(value)
  {
    var r := Normalize(value);
    var key := NormKey(value);
    if r == "" {
      assert Blank(r);
    } else if r in Allowed {
      CanonicalMatch(r, r);
    } else {
      IsAllowedIff(value);
      UnknownUnchanged(value);
      NormKeyStrip(value);
      StripIdempotent(value);
      UnknownUnchanged(r);
    }
  }

  // ---------------------------------------------------------------------
  // Worked examples

  lemma SpacedParts()
    ensures AllSpace("  ") && AllSpace("   ") && AllSpace(" ")
    ensures IsWord("compiler") && IsWord("design")
    ensures Lower("compiler") == "compiler" && Lower("design") == "design"
    ensures "  compiler   design " == "  " + "compiler" + "   " + "design" + " "
    ensures "compiler design" == "compiler" + " " + "design"
  {
  }

  /** Case and whitespace runs are ignored when matching the allow-list. */
  lemma ExampleSpacedLowerCase(value: string)
    requires value == "  compiler   design "
    ensures Normalize(value) == "Compiler Design"
  {
    SpacedParts();
    KeyOfTwoWords(value, "  ", "compiler", "   ", "design", " ", "compiler", "design", "compiler design");
    KeyCompilerDesign("Compiler Design");
    CanonicalMatch(value, "Compiler Design");
  }

  lemma ExampleLowerJava(value: string)
    requires value == "java"
    ensures Normalize(value) == "JAVA"
  {
    assert IsWord("java") && Lower("java") == "java";
    KeyOfWord(value, "java");
    KeyJAVA("JAVA");
    CanonicalMatch(value, "JAVA");
  }

  lemma AliasWordParts()
    ensures IsWord("FSWD") && Lower("FSWD") == "fswd"
    ensures IsWord("fswd") && Lower("fswd") == "fswd"
    ensures IsWord("cd") && Lower("cd") == "cd"
    ensures "fswd" in Aliases && Aliases["fswd"] == "Web Development"
    ensures "cd" in Aliases && Aliases["cd"] == "Compiler Design"
  {
  }

  lemma UnknownParts()
    ensures IsWord("unknown-subject") && Lower("unknown-subject") == "unknown-subject"
    ensures !IsAllowedKey("unknown-subject") && "unknown-subject" !in Aliases
  {
  }

  /** Alias keys are matched after normalisation, in any case. */
  lemma ExampleAliasFswd(value: string)
    requires value == "FSWD" || value == "fswd"
    ensures Normalize(value) == "Web Development"
  {
    AliasWordParts();
    KeyOfWord(value, "fswd");
    AliasMatch(value);
  }

  lemma ExampleAliasCd(value: string)
    requires value == "cd"
    ensures Normalize(value) == "Compiler Design"
  {
    AliasWordParts();
    KeyOfWord(value, "cd");
    AliasMatch(value);
  }

  /** An unknown subject comes back as it was, and is not allowed. */
  lemma ExampleUnknown(value: string)
    requires value == "unknown-subject"
    ensures Normalize(value) == value
    ensures !IsAllowed(value)
  {
    UnknownParts();
    KeyOfWord(value, "unknown-subject");
    StripNoop(value);
    assert !Blank(value);
    UnknownUnchanged(value);
  }
}
