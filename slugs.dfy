/**
 * The URL slug of a publication title: `title.toLowerCase().replace(/\W+/g, '-')`.
 *
 * A word character is one of `[A-Za-z0-9_]` (JavaScript `\w` without the `u` flag);
 * every other character, including every non-ASCII one, is a non-word character.
 * Lowercasing is modelled on ASCII: `A`..`Z` become `a`..`z`, everything else is kept.
 */
module Slugs {

  predicate IsWordChar(c: char) {
    ('A' <= c <= 'Z') || ('a' <= c <= 'z') || ('0' <= c <= '9') || c == '_'
  }

  predicate IsUpper(c: char) {
    'A' <= c <= 'Z'
  }

  /** The characters a slug is made of: lower-case letters, digits, `_` and `-`. */
  predicate IsSlugChar(c: char) {
    ('a' <= c <= 'z') || ('0' <= c <= '9') || c == '_' || c == '-'
  }

  predicate NoAdjacentHyphens(s: string) {
    forall i :: 0 <= i < |s| - 1 ==> !(s[i] == '-' && s[i + 1] == '-')
  }

  // ---------------------------------------------------------------------------
  // Lowercasing

  /** ASCII `toLowerCase` of one character. */
  function LowerChar(c: char): (d: char)
    ensures !IsUpper(d)
    ensures IsWordChar(d) == IsWordChar(c)
    ensures d == c <==> !IsUpper(c)
    ensures IsUpper(c) ==> d as int == c as int + 32
  {
    if IsUpper(c) then (c as int + 32) as char else c
  }

  /** ASCII `toLowerCase` of a string. */
  function ToLower(s: string): (r: string)
    ensures |r| == |s|
    ensures forall i :: 0 <= i < |s| ==> r[i] == LowerChar(s[i])
    ensures forall i :: 0 <= i < |r| ==> !IsUpper(r[i])
  {
    if s == [] then [] else [LowerChar(s[0])] + ToLower(s[1..])
  }

  /** A string without upper-case letters is left alone by lowercasing. */
  lemma ToLowerFixesLower(s: string)
    requires forall i :: 0 <= i < |s| ==> !IsUpper(s[i])
    ensures ToLower(s) == s
  {
  }

  /** Lowercasing works character by character, so it distributes over concatenation. */
  lemma ToLowerAppend(a: string, b: string)
    ensures ToLower(a + b) == ToLower(a) + ToLower(b)
  {
    var l := ToLower(a + b);
    assert l == ToLower(a) + ToLower(b) by {
      assert forall i :: 0 <= i < |a| ==> (a + b)[i] == a[i];
      assert forall i :: |a| <= i < |a + b| ==> (a + b)[i] == b[i - |a|];
    }
  }

  lemma ToLowerIdempotent(s: string)
    ensures ToLower(ToLower(s)) == ToLower(s)
  {
    ToLowerFixesLower(ToLower(s));
  }

  // ---------------------------------------------------------------------------
  // Replacing every maximal non-word run by one hyphen

  /** What is left after a match of `\W+` at the start of `s` is consumed: the maximal non-word prefix is dropped. */
  function DropNonWord(s: string): (r: string)
    ensures |r| <= |s| && r == s[|s| - |r|..]
    ensures forall i :: 0 <= i < |s| - |r| ==> !IsWordChar(s[i])
    ensures r == [] || IsWordChar(r[0])
    ensures s != [] && !IsWordChar(s[0]) ==> |r| < |s|
  {
    if s != [] && !IsWordChar(s[0]) then DropNonWord(s[1..]) else s
  }

  /** `s.replace(/\W+/g, '-')`: the global replacement scans left to right; a word character is copied,
      a non-word character starts a maximal run that is consumed whole and replaced by one `-`. */
  function Collapse(s: string): (r: string)
    ensures |r| <= |s|
    ensures forall i :: 0 <= i < |r| ==> IsWordChar(r[i]) || r[i] == '-'
    ensures NoAdjacentHyphens(r)
    ensures r == [] <==> s == []
    ensures s != [] ==> r[0] == (if IsWordChar(s[0]) then s[0] else '-')
    ensures (forall i :: 0 <= i < |s| ==> !IsUpper(s[i])) ==> forall i :: 0 <= i < |r| ==> !IsUpper(r[i])
    decreases |s|
  {
    if s == [] then []
    else if IsWordChar(s[0]) then [s[0]] + Collapse(s[1..])
    else "-" + Collapse(DropNonWord(s))
  }

  /** The replacement keeps a final word character and turns a final non-word run into `-`. */
  lemma {:induction false} CollapseLast(s: string)
    requires s != []
    ensures Collapse(s)[|Collapse(s)| - 1] == (if IsWordChar(s[|s| - 1]) then s[|s| - 1] else '-')
    decreases |s|
  {
    if IsWordChar(s[0]) {
      if |s| > 1 {
        CollapseLast(s[1..]);
      }
    } else {
      var d := DropNonWord(s);
      if d != [] {
        CollapseLast(d);
        assert d[|d| - 1] == s[|s| - 1];
      } else {
        assert !IsWordChar(s[|s| - 1]);
      }
    }
  }

  /** A run of non-word characters reaching the end of the string is dropped whole. */
  lemma {:induction false} DropAllNonWord(s: string)
    requires forall i :: 0 <= i < |s| ==> !IsWordChar(s[i])
    ensures DropNonWord(s) == []
    decreases |s|
  {
    if s != [] {
      DropAllNonWord(s[1..]);
    }
  }

  /** A non-empty string of non-word characters is one run, so it becomes a single hyphen. */
  lemma CollapseAllNonWord(s: string)
    requires s != [] && forall i :: 0 <= i < |s| ==> !IsWordChar(s[i])
    ensures Collapse(s) == "-"
  {
    DropAllNonWord(s);
  }

  /** An independent, character-local reading of the same replacement: a word character stands for
      itself, a non-word character that ends its run stands for `-`, any other non-word character
      stands for nothing. */
  function CollapseLocal(s: string): (r: string)
    ensures |r| <= |s|
  {
    if s == [] then []
    else
      var piece :=
        if IsWordChar(s[0]) then [s[0]]
        else if |s| > 1 && !IsWordChar(s[1]) then []
        else "-";
      piece + CollapseLocal(s[1..])
  }

  lemma {:induction false} CollapseLocalRun(s: string)
    requires s != [] && !IsWordChar(s[0])
    ensures CollapseLocal(s) == "-" + CollapseLocal(DropNonWord(s))
    decreases |s|
  {
    if |s| > 1 && !IsWordChar(s[1]) {
      CollapseLocalRun(s[1..]);
    }
  }

  /** The run-consuming replacement and the character-local reading agree on every string. */
  lemma {:induction false} CollapseMatchesLocal(s: string)
    ensures Collapse(s) == CollapseLocal(s)
    decreases |s|
  {
    if s == [] {
    } else if IsWordChar(s[0]) {
      CollapseMatchesLocal(s[1..]);
    } else {
      CollapseMatchesLocal(DropNonWord(s));
      CollapseLocalRun(s);
    }
  }

  lemma {:induction false} CollapseLocalAppend(a: string, b: string)
    requires a == [] || b == [] || IsWordChar(a[|a| - 1]) || IsWordChar(b[0])
    ensures CollapseLocal(a + b) == CollapseLocal(a) + CollapseLocal(b)
    decreases |a|
  {
    if a == [] {
      assert a + b == b;
    } else {
      assert (a + b)[1..] == a[1..] + b;
      CollapseLocalAppend(a[1..], b);
    }
  }

  /** The replacement works piecewise across a boundary that has a word character on one side. */
  lemma CollapseAppend(a: string, b: string)
    requires a == [] || b == [] || IsWordChar(a[|a| - 1]) || IsWordChar(b[0])
    ensures Collapse(a + b) == Collapse(a) + Collapse(b)
  {
    CollapseMatchesLocal(a + b);
    CollapseMatchesLocal(a);
    CollapseMatchesLocal(b);
    CollapseLocalAppend(a, b);
  }

  /** A string already made of word characters and single hyphens is a fixed point of the replacement. */
  lemma {:induction false} CollapseFixesNormal(s: string)
    requires forall i :: 0 <= i < |s| ==> IsWordChar(s[i]) || s[i] == '-'
    requires NoAdjacentHyphens(s)
    ensures Collapse(s) == s
    decreases |s|
  {
    if s != [] {
      CollapseFixesNormal(s[1..]);
      if !IsWordChar(s[0]) {
        assert DropNonWord(s) == s[1..] by {
          if |s| > 1 {
            assert s[0] == '-' && s[1] != '-';
          }
        }
      }
    }
  }

  lemma CollapseIdempotent(s: string)
    ensures Collapse(Collapse(s)) == Collapse(s)
  {
    CollapseFixesNormal(Collapse(s));
  }

  // ---------------------------------------------------------------------------
  // Word characters

  /** The word characters of `s`, in order. */
  function Words(s: string): (r: string)
    ensures |r| <= |s|
    ensures forall i :: 0 <= i < |r| ==> IsWordChar(r[i])
  {
    if s == [] then []
    else if IsWordChar(s[0]) then [s[0]] + Words(s[1..])
    else Words(s[1..])
  }

  lemma {:induction false} WordsEmpty(s: string)
    ensures Words(s) == [] <==> forall i :: 0 <= i < |s| ==> !IsWordChar(s[i])
    decreases |s|
  {
    if s != [] {
      WordsEmpty(s[1..]);
      assert forall i :: 1 <= i < |s| ==> s[i] == s[1..][i - 1];
    }
  }

  /** A string that equals its own word characters consists of word characters only. */
  lemma WordsAll(s: string)
    requires Words(s) == s
    ensures forall i :: 0 <= i < |s| ==> IsWordChar(s[i])
  {
  }

  lemma {:induction false} WordsDropNonWord(s: string)
    ensures Words(DropNonWord(s)) == Words(s)
    decreases |s|
  {
    if s != [] && !IsWordChar(s[0]) {
      WordsDropNonWord(s[1..]);
    }
  }

  /** The replacement removes and inserts only non-word characters. */
  lemma {:induction false} WordsCollapse(s: string)
    ensures Words(Collapse(s)) == Words(s)
    decreases |s|
  {
    if s == [] {
    } else if IsWordChar(s[0]) {
      WordsCollapse(s[1..]);
      assert ([s[0]] + Collapse(s[1..]))[1..] == Collapse(s[1..]);
    } else {
      WordsCollapse(DropNonWord(s));
      WordsDropNonWord(s);
      assert ("-" + Collapse(DropNonWord(s)))[1..] == Collapse(DropNonWord(s));
    }
  }

  lemma {:induction false} WordsToLower(s: string)
    ensures Words(ToLower(s)) == ToLower(Words(s))
    decreases |s|
  {
    if s != [] {
      WordsToLower(s[1..]);
      assert ToLower(s)[1..] == ToLower(s[1..]);
      if IsWordChar(s[0]) {
        assert ([s[0]] + Words(s[1..]))[1..] == Words(s[1..]);
      }
    }
  }

  // ---------------------------------------------------------------------------
  // The slug

  /** `title.toLowerCase().replace(/\W+/g, '-')`. Nothing is trimmed: a title that starts (ends) with
      a non-word character gives a slug that starts (ends) with `-`. */
  function Slug(title: string): string
  {
    Collapse(ToLower(title))
  }

  /** The shape of every slug: only lower-case letters, digits, `_` and single hyphens, never longer
      than the title, empty exactly for the empty title, and with a leading (trailing) hyphen exactly
      when the title starts (ends) with a non-word character. */
  lemma SlugShape(title: string)
    ensures |Slug(title)| <= |title|
    ensures forall i :: 0 <= i < |Slug(title)| ==> IsSlugChar(Slug(title)[i])
    ensures NoAdjacentHyphens(Slug(title))
    ensures Slug(title) == [] <==> title == []
    ensures title != [] ==> (Slug(title)[0] == '-' <==> !IsWordChar(title[0]))
    ensures title != [] ==> (Slug(title)[|Slug(title)| - 1] == '-' <==> !IsWordChar(title[|title| - 1]))
  {
    var lower := ToLower(title);
    assert forall i :: 0 <= i < |title| ==> IsWordChar(lower[i]) == IsWordChar(title[i]);
    if lower != [] {
      CollapseLast(lower);
    }
  }

  lemma SlugIdempotent(title: string)
    ensures Slug(Slug(title)) == Slug(title)
  {
    var s := Slug(title);
    SlugShape(title);
    ToLowerFixesLower(s);
    CollapseFixesNormal(s);
  }

  /** The word characters of the slug, in order, are the lower-cased word characters of the title. */
  lemma SlugWords(title: string)
    ensures Words(Slug(title)) == ToLower(Words(title))
  {
    WordsCollapse(ToLower(title));
    WordsToLower(title);
  }

  /** A non-empty title without word characters gives exactly `-`, and no other title does. */
  lemma SlugAllPunctuation(title: string)
    ensures Slug(title) == "-" <==> title != [] && forall i :: 0 <= i < |title| ==> !IsWordChar(title[i])
  {
    var lower := ToLower(title);
    SlugWords(title);
    WordsEmpty(title);
    WordsEmpty(Slug(title));
    SlugShape(title);
    if title != [] && forall i :: 0 <= i < |title| ==> !IsWordChar(title[i]) {
      CollapseAllNonWord(lower);
    }
  }

  /** A title made of word characters only is just lower-cased. */
  lemma SlugOfWord(w: string)
    requires Words(w) == w
    ensures Slug(w) == ToLower(w)
  {
    WordsAll(w);
    CollapseFixesNormal(ToLower(w));
  }

  /** A non-word separator between two word characters becomes exactly one hyphen, and the two sides
      are slugged independently. */
  lemma SlugJoin(a: string, sep: string, b: string)
    requires a != [] && IsWordChar(a[|a| - 1])
    requires b != [] && IsWordChar(b[0])
    requires sep != [] && Words(sep) == []
    ensures Slug(a + sep + b) == Slug(a) + "-" + Slug(b)
  {
    WordsEmpty(sep);
    ToLowerAppend(a, sep);
    ToLowerAppend(a + sep, b);
    CollapseJoin(ToLower(a), ToLower(sep), ToLower(b));
  }

  lemma CollapseJoin(a: string, sep: string, b: string)
    requires a != [] && IsWordChar(a[|a| - 1])
    requires b != [] && IsWordChar(b[0])
    requires sep != [] && forall i :: 0 <= i < |sep| ==> !IsWordChar(sep[i])
    ensures Collapse(a + sep + b) == Collapse(a) + "-" + Collapse(b)
  {
    CollapseAllNonWord(sep);
    CollapseAppend(a, sep);
    CollapseAppend(a + sep, b);
  }

  lemma SlugEmpty()
    ensures Slug("") == ""
  {
  }

  /** Two words separated by a space: the words lower-cased, joined by one hyphen. */
  lemma SlugTwoWords(a: string, b: string)
    requires a != [] && b != [] && Words(a) == a && Words(b) == b
    ensures Slug(a + " " + b) == ToLower(a) + "-" + ToLower(b)
  {
    WordsAll(a);
    WordsAll(b);
    assert Words(" ") == [];
    SlugJoin(a, " ", b);
    SlugOfWord(a);
    SlugOfWord(b);
  }

  lemma SlugMyPaper(title: string)
    requires title == "My Paper"
    ensures Slug(title) == "my-paper"
  {
    assert "My" + " " + "Paper" == title;
    assert Words("My") == "My" && Words("Paper") == "Paper";
    SlugTwoWords("My", "Paper");
    assert ToLower("My") == "my";
    assert ToLower("Paper") == "paper";
  }

  /** A title that ends in a word character gets no trailing hyphen. */
  lemma SlugGpt3(title: string)
    requires title == "GPT-3: Language Models"
    ensures Slug(title)[|Slug(title)| - 1] == 's'
  {
    SlugShape(title);
    assert title[|title| - 1] == 's';
    assert IsWordChar('s');
    CollapseLast(ToLower(title));
  }

  /** Distinct titles can share a slug: nothing makes slugs unique. */
  lemma SlugNotInjective(t1: string, t2: string)
    requires t1 == "A B" && t2 == "a-b"
    ensures t1 != t2 && Slug(t1) == Slug(t2)
  {
    assert "A" + " " + "B" == t1;
    assert "a" + "-" + "b" == t2;
    assert Words("A") == "A" && Words("B") == "B";
    assert Words("a") == "a" && Words("b") == "b" && Words("-") == [];
    SlugTwoWords("A", "B");
    SlugJoin("a", "-", "b");
    SlugOfWord("a");
    SlugOfWord("b");
    assert ToLower("A") == "a" && ToLower("B") == "b";
    assert ToLower("a") == "a" && ToLower("b") == "b";
  }
}
