/**
 * The tag-to-language lookup (lib/languageUtils.ts): a table of canonical
 * language names with their lower-case aliases, the reverse map built from it
 * at module load, and `getLanguageFromTag`.
 */
module Language {
  import opened Types
  import opened Text

  /** `LANGUAGE_MAP`, in declaration order. */
  const LanguageMap: seq<(string, seq<string>)> := [
    ("JavaScript", ["javascript", "js", "es6", "ecmascript", "node", "nodejs", "react", "vue", "angular"]),
    ("TypeScript", ["typescript", "ts"]),
    ("Python", ["python", "py", "django", "flask"]),
    ("Java", ["java", "spring"]),
    ("Go", ["golang", "go"]),
    ("Rust", ["rust"]),
    ("C#", ["csharp", "c#", ".net"]),
    ("C++", ["c++", "cpp"]),
    ("PHP", ["php", "laravel", "symfony"]),
    ("Ruby", ["ruby", "rails"]),
    ("Swift", ["swift", "ios"]),
    ("Kotlin", ["kotlin", "android"]),
    ("HTML", ["html", "html5"]),
    ("CSS", ["css", "css3", "scss", "sass", "tailwind"]),
    ("SQL", ["sql", "mysql", "postgres", "postgresql"]),
    ("Shell", ["shell", "bash", "sh", "zsh"]),
    ("Dart", ["dart", "flutter"])
  ]

  /** The reverse map of a table: each alias to its language, a later language overwriting an earlier one. */
  function Reverse(langs: seq<(string, seq<string>)>): map<string, string> {
    if langs == [] then map[]
    else
      var last := langs[|langs| - 1];
      Reverse(langs[..|langs| - 1]) + map a | a in last.1 :: last.0
  }

  /** `TAG_TO_LANGUAGE_MAP`: the nested loops that `set` every alias of every language in turn. */
  method BuildTagToLanguage(langs: seq<(string, seq<string>)>) returns (m: map<string, string>)
    ensures m == Reverse(langs)
  {
    m := map[];
    for i := 0 to |langs|
      invariant m == Reverse(langs[..i])
    {
      assert langs[..i + 1][..i] == langs[..i];
      var (language, aliases) := langs[i];
      ghost var before := m;
      for j := 0 to |aliases|
        invariant m == before + map a | a in aliases[..j] :: language
      {
        assert aliases[..j + 1] == aliases[..j] + [aliases[j]];
        m := m[aliases[j] := language];
      }
      assert aliases[..|aliases|] == aliases;
    }
    assert langs[..|langs|] == langs;
  }

  /** No alias is listed under two languages. */
  ghost predicate AliasesDisjoint(langs: seq<(string, seq<string>)>) {
    forall i, j, a :: 0 <= i < j < |langs| && a in langs[i].1 ==> a !in langs[j].1
  }

  /** The key a tag is looked up under: lower-cased, then trimmed. */
  function Key(tag: string): string {
    Trim(ToLower(tag))
  }

  /** The language a map gives the normalised tag, or null (None). */
  function Lookup(m: map<string, string>, tag: string): Option<string> {
    var key := Key(tag);
    if key in m then Some(m[key]) else None
  }

  /** `getLanguageFromTag`, over `TAG_TO_LANGUAGE_MAP`. */
  function LanguageFromTag(tag: string): Option<string> {
    Lookup(Reverse(LanguageMap), tag)
  }

  // ---- what the reverse map promises ----

  /** The reverse map holds exactly the listed aliases. */
  lemma {:induction false} ReverseKeys(langs: seq<(string, seq<string>)>, a: string)
    ensures a in Reverse(langs) <==> exists i :: 0 <= i < |langs| && a in langs[i].1
  {
    if langs != [] {
      var p := langs[..|langs| - 1];
      ReverseKeys(p, a);
      if exists i :: 0 <= i < |langs| && a in langs[i].1 {
        var i :| 0 <= i < |langs| && a in langs[i].1;
        if i < |p| {
          assert p[i] == langs[i];
        }
      }
      if exists i :: 0 <= i < |p| && a in p[i].1 {
        var i :| 0 <= i < |p| && a in p[i].1;
        assert langs[i] == p[i];
      }
    }
  }

  /** An alias maps to the last language that lists it. */
  lemma {:induction false} ReverseLast(langs: seq<(string, seq<string>)>, i: int, a: string)
    requires 0 <= i < |langs| && a in langs[i].1
    requires forall j :: i < j < |langs| ==> a !in langs[j].1
    ensures a in Reverse(langs) && Reverse(langs)[a] == langs[i].0
  {
    if i < |langs| - 1 {
      var p := langs[..|langs| - 1];
      ReverseLast(p, i, a);
    }
  }

  /** With disjoint alias lists, the reverse map inverts the table: every alias maps to its own language. */
  lemma ReverseInverts(langs: seq<(string, seq<string>)>, i: int, a: string)
    requires AliasesDisjoint(langs)
    requires 0 <= i < |langs| && a in langs[i].1
    ensures a in Reverse(langs) && Reverse(langs)[a] == langs[i].0
  {
    ReverseLast(langs, i, a);
  }

  /** Every listed alias, looked up as is, gives its canonical language. */
  lemma AliasLookup(i: int, a: string)
    requires 0 <= i < |LanguageMap| && a in LanguageMap[i].1
    requires Key(a) == a
    ensures LanguageFromTag(a) == Some(LanguageMap[i].0)
  {
    TableDisjoint();
    ReverseInverts(LanguageMap, i, a);
  }

  /** A tag whose key (ASCII lower-casing, then trimming) is no alias gives null. */
  lemma UnknownTag(tag: string)
    requires forall i :: 0 <= i < |LanguageMap| ==> Key(tag) !in LanguageMap[i].1
    ensures LanguageFromTag(tag) == None
  {
    ReverseKeys(LanguageMap, Key(tag));
  }

  /** The aliases of language `i` appear under no later language. */
  lemma LaterDisjoint(i: int)
    requires 0 <= i < |LanguageMap|
    ensures forall j, a :: i < j < |LanguageMap| && a in LanguageMap[i].1 ==> a !in LanguageMap[j].1
  {
    if i == 0 {
      JavaScriptDisjoint();
    } else if i < 4 {
      LaterDisjoint0(i);
    } else if i < 8 {
      LaterDisjoint1(i);
    } else if i < 12 {
      LaterDisjoint2(i);
    } else {
      LaterDisjoint3(i);
    }
  }

  lemma JavaScriptDisjoint()
    ensures forall j, a :: 0 < j < |LanguageMap| && a in LanguageMap[0].1 ==> a !in LanguageMap[j].1
  {
  }

  lemma LaterDisjoint0(i: int)
    requires 1 <= i < 4
    ensures forall j, a :: i < j < |LanguageMap| && a in LanguageMap[i].1 ==> a !in LanguageMap[j].1
  {
  }

  lemma LaterDisjoint1(i: int)
    requires 4 <= i < 8
    ensures forall j, a :: i < j < |LanguageMap| && a in LanguageMap[i].1 ==> a !in LanguageMap[j].1
  {
  }

  lemma LaterDisjoint2(i: int)
    requires 8 <= i < 12
    ensures forall j, a :: i < j < |LanguageMap| && a in LanguageMap[i].1 ==> a !in LanguageMap[j].1
  {
  }

  lemma LaterDisjoint3(i: int)
    requires 12 <= i < 17
    ensures forall j, a :: i < j < |LanguageMap| && a in LanguageMap[i].1 ==> a !in LanguageMap[j].1
  {
  }

  /** The alias lists of the table are pairwise disjoint. */
  lemma TableDisjoint()
    ensures AliasesDisjoint(LanguageMap)
  {
    forall i | 0 <= i < |LanguageMap| {
      LaterDisjoint(i);
    }
  }

  /** Lower-casing a string with no upper-case letters leaves it as it is. */
  lemma {:induction false} ToLowerLower(s: string)
    requires forall i :: 0 <= i < |s| ==> !('A' <= s[i] <= 'Z')
    ensures ToLower(s) == s
  {
    if s != [] {
      ToLowerLower(s[1..]);
    }
  }

  /** Trimming keeps only characters of the original string. */
  lemma TrimChars(s: string)
    ensures forall i :: 0 <= i < |Trim(s)| ==> Trim(s)[i] in s
  {
    var start := TrimStart(s);
    SliceChars(s, start, |s| - |start|);
    SliceChars(start, TrimEnd(start), 0);
  }

  /** Every character of a slice is a character of the whole. */
  lemma SliceChars(s: string, t: string, off: int)
    requires 0 <= off && off + |t| <= |s| && t == s[off..off + |t|]
    ensures forall c :: c in t ==> c in s
  {
    forall c | c in t ensures c in s {
      var i :| 0 <= i < |t| && t[i] == c;
      assert s[off + i] == c;
    }
  }

  /** Normalising twice is normalising once, so lookup ignores case and surrounding whitespace alike for a tag and its key. */
  lemma KeyIdempotent(tag: string)
    ensures Key(Key(tag)) == Key(tag)
    ensures forall m :: Lookup(m, Key(tag)) == Lookup(m, tag)
  {
    var lower := ToLower(tag);
    var t := Trim(lower);
    TrimChars(lower);
    forall i | 0 <= i < |t| ensures !('A' <= t[i] <= 'Z') {
      var k :| 0 <= k < |lower| && lower[k] == t[i];
    }
    ToLowerLower(t);
    TrimIdempotent(lower);
  }

  /** Each canonical name, normalised, is one of its own aliases. */
  lemma CanonicalIsAlias(i: int)
    requires 0 <= i < |LanguageMap|
    ensures Key(LanguageMap[i].0) in LanguageMap[i].1
  {
    if i < 4 {
      CanonicalIsAlias0(i);
    } else if i < 8 {
      CanonicalIsAlias1(i);
    } else if i < 12 {
      CanonicalIsAlias2(i);
    } else {
      CanonicalIsAlias3(i);
    }
  }

  // The names four at a time, which keeps each proof small.

  lemma CanonicalIsAlias0(i: int)
    requires 0 <= i < 4
    ensures Key(LanguageMap[i].0) in LanguageMap[i].1
  {
    if i == 0 {
      assert LanguageMap[i].0 == "JavaScript" && "javascript" in LanguageMap[i].1;
      LowerName("JavaScript", "javascript");
    } else if i == 1 {
      assert LanguageMap[i].0 == "TypeScript" && "typescript" in LanguageMap[i].1;
      LowerName("TypeScript", "typescript");
    } else if i == 2 {
      assert LanguageMap[i].0 == "Python" && "python" in LanguageMap[i].1;
      LowerName("Python", "python");
    } else {
      assert LanguageMap[i].0 == "Java" && "java" in LanguageMap[i].1;
      LowerName("Java", "java");
    }
  }

  lemma CanonicalIsAlias1(i: int)
    requires 4 <= i < 8
    ensures Key(LanguageMap[i].0) in LanguageMap[i].1
  {
    if i == 4 {
      assert LanguageMap[i].0 == "Go" && "go" in LanguageMap[i].1;
      LowerName("Go", "go");
    } else if i == 5 {
      assert LanguageMap[i].0 == "Rust" && "rust" in LanguageMap[i].1;
      LowerName("Rust", "rust");
    } else if i == 6 {
      assert LanguageMap[i].0 == "C#" && "c#" in LanguageMap[i].1;
      LowerName("C#", "c#");
    } else {
      assert LanguageMap[i].0 == "C++" && "c++" in LanguageMap[i].1;
      LowerName("C++", "c++");
    }
  }

  lemma CanonicalIsAlias2(i: int)
    requires 8 <= i < 12
    ensures Key(LanguageMap[i].0) in LanguageMap[i].1
  {
    if i == 8 {
      assert LanguageMap[i].0 == "PHP" && "php" in LanguageMap[i].1;
      LowerName("PHP", "php");
    } else if i == 9 {
      assert LanguageMap[i].0 == "Ruby" && "ruby" in LanguageMap[i].1;
      LowerName("Ruby", "ruby");
    } else if i == 10 {
      assert LanguageMap[i].0 == "Swift" && "swift" in LanguageMap[i].1;
      LowerName("Swift", "swift");
    } else {
      assert LanguageMap[i].0 == "Kotlin" && "kotlin" in LanguageMap[i].1;
      LowerName("Kotlin", "kotlin");
    }
  }

  lemma CanonicalIsAlias3(i: int)
    requires 12 <= i < 17
    ensures Key(LanguageMap[i].0) in LanguageMap[i].1
  {
    if i == 12 {
      assert LanguageMap[i].0 == "HTML" && "html" in LanguageMap[i].1;
      LowerName("HTML", "html");
    } else if i == 13 {
      assert LanguageMap[i].0 == "CSS" && "css" in LanguageMap[i].1;
      LowerName("CSS", "css");
    } else if i == 14 {
      assert LanguageMap[i].0 == "SQL" && "sql" in LanguageMap[i].1;
      LowerName("SQL", "sql");
    } else if i == 15 {
      assert LanguageMap[i].0 == "Shell" && "shell" in LanguageMap[i].1;
      LowerName("Shell", "shell");
    } else {
      assert LanguageMap[i].0 == "Dart" && "dart" in LanguageMap[i].1;
      LowerName("Dart", "dart");
    }
  }

  /** A name whose lower-case form is `lower` (no surrounding spaces) has key `lower`. */
  lemma LowerName(name: string, lower: string)
    requires |name| == |lower| && forall k :: 0 <= k < |name| ==> LowerChar(name[k]) == lower[k]
    requires lower != [] && !IsSpace(lower[0]) && !IsSpace(lower[|lower| - 1])
    ensures Key(name) == lower
  {
    assert ToLower(name) == lower;
    TrimStartKeeps(lower, 0);
    var start := TrimStart(lower);
    assert start == lower;
    TrimEndKeeps(start, |start| - 1);
  }

  /** Looking up a returned name gives that name again. */
  lemma LookupIdempotent(tag: string, name: string)
    requires LanguageFromTag(tag) == Some(name)
    ensures LanguageFromTag(name) == Some(name)
  {
    var m := Reverse(LanguageMap);
    ReverseKeys(LanguageMap, Key(tag));
    var i :| 0 <= i < |LanguageMap| && Key(tag) in LanguageMap[i].1;
    TableDisjoint();
    ReverseInverts(LanguageMap, i, Key(tag));
    assert name == LanguageMap[i].0;
    CanonicalIsAlias(i);
    ReverseInverts(LanguageMap, i, Key(name));
  }
}
