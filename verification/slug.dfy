/**
 * The file-name slug `generateFilePath` derives from a title:
 * `title.toLowerCase().replace(/[^\w\s-]/g, '').replace(/\s+/g, '-').trim()`.
 */
module Slugs {
  import opened Text
  import opened Seqs

  /** `\w`: an ASCII letter, digit or underscore. */
  predicate IsWordChar(c: char) {
    IsAsciiUpper(c) || IsAsciiLower(c) || IsDigit(c) || c == '_'
  }

  /**
   * `\s`: the ECMAScript white space and line terminator characters. The
   * ASCII ones are tab, line feed, vertical tab, form feed, carriage return
   * (U+0009 to U+000D) and space; the rest are all at or above U+00A0.
   */
  predicate IsJsWhitespace(c: char) {
    ('\t' <= c <= '\r') || c == ' ' || (c >= '\U{00A0}' && IsUnicodeSpace(c))
  }

  /** The non-ASCII members of `\s`: no-break space, the Unicode space separators, the line and paragraph separators and the byte-order mark. */
  predicate IsUnicodeSpace(c: char) {
    c == '\U{00A0}' || c == '\U{1680}' || ('\U{2000}' <= c <= '\U{200A}')
    || c == '\U{2028}' || c == '\U{2029}' || c == '\U{202F}' || c == '\U{205F}'
    || c == '\U{3000}' || c == '\U{FEFF}'
  }

  /** What a slug is made of: lower-case ASCII letters, digits, `_` and `-`. */
  predicate IsSlugChar(c: char) {
    IsAsciiLower(c) || IsDigit(c) || c == '_' || c == '-'
  }

  predicate IsSlugText(s: string) {
    forall i :: 0 <= i < |s| ==> IsSlugChar(s[i])
  }

  /** What `[^\w\s-]` does not match: a word character, white space or `-`. */
  predicate IsKeptChar(c: char) {
    IsWordChar(c) || IsJsWhitespace(c) || c == '-'
  }

  predicate NotDash(c: char) {
    c != '-'
  }

  /** Neither white space nor `-`: the characters that pass through the dash step unchanged and unmerged. */
  predicate IsPlainChar(c: char) {
    c != '-' && !IsJsWhitespace(c)
  }

  /**
   * `.replace(/[^\w\s-]/g, '')`: drops every character that is not a word
   * character, white space or `-`.
   */
  function DropSpecials(s: string): (r: string)
    ensures |r| <= |s|
    ensures forall i :: 0 <= i < |r| ==> IsKeptChar(r[i])
    ensures forall i :: 0 <= i < |r| ==> exists j :: 0 <= j < |s| && r[i] == s[j]
  {
    if s == [] then []
    else
      var rest := DropSpecials(s[1..]);
      assert forall i :: 0 <= i < |rest| ==> exists j :: 0 <= j < |s| && rest[i] == s[j] by {
        forall i | 0 <= i < |rest|
          ensures exists j :: 0 <= j < |s| && rest[i] == s[j]
        {
          var j :| 0 <= j < |s[1..]| && rest[i] == s[1..][j];
          assert rest[i] == s[j + 1];
        }
      }
      (if IsKeptChar(s[0]) then [s[0]] else []) + rest
  }

  /**
   * `.replace(/\s+/g, '-')`: each maximal run of white space becomes one `-`;
   * `inRun` says whether the text before `s` ended in white space.
   */
  function CollapseWhitespace(s: string, inRun: bool): (r: string)
    ensures |r| <= |s|
    ensures forall i :: 0 <= i < |r| ==> !IsJsWhitespace(r[i])
    ensures forall i :: 0 <= i < |r| ==> r[i] == '-' || exists j :: 0 <= j < |s| && r[i] == s[j]
  {
    if s == [] then []
    else
      var rest := CollapseWhitespace(s[1..], IsJsWhitespace(s[0]));
      assert forall i :: 0 <= i < |rest| ==> rest[i] == '-' || exists j :: 0 <= j < |s| && rest[i] == s[j] by {
        forall i | 0 <= i < |rest| && rest[i] != '-'
          ensures exists j :: 0 <= j < |s| && rest[i] == s[j]
        {
          var j :| 0 <= j < |s[1..]| && rest[i] == s[1..][j];
          assert rest[i] == s[j + 1];
        }
      }
      if IsJsWhitespace(s[0]) then (if inRun then [] else ['-']) + rest
      else [s[0]] + rest
  }

  /** Every word character survives `DropSpecials`, in order. */
  lemma {:induction false} DropSpecialsKeepsWords(s: string)
    ensures Filter(DropSpecials(s), IsWordChar) == Filter(s, IsWordChar)
  {
    if s != [] {
      DropSpecialsKeepsWords(s[1..]);
      var head := if IsKeptChar(s[0]) then [s[0]] else [];
      FilterAppend(head, DropSpecials(s[1..]), IsWordChar);
      assert [s[0]][1..] == [];
    }
  }

  /** `DropSpecials` leaves nothing exactly when no character was allowed. */
  lemma {:induction false} DropSpecialsEmpty(s: string)
    ensures DropSpecials(s) == [] <==> forall i :: 0 <= i < |s| ==> !IsKeptChar(s[i])
  {
    if s != [] {
      DropSpecialsEmpty(s[1..]);
      assert forall i :: 0 <= i < |s[1..]| ==> s[1..][i] == s[i + 1];
    }
  }

  /** Apart from its dashes, the collapsed text is the input without white space or `-`. */
  lemma {:induction false} CollapseKeepsPlain(s: string, inRun: bool)
    ensures Filter(CollapseWhitespace(s, inRun), NotDash) == Filter(s, IsPlainChar)
  {
    if s != [] {
      var white := IsJsWhitespace(s[0]);
      var rest := CollapseWhitespace(s[1..], white);
      CollapseKeepsPlain(s[1..], white);
      var head := if white then (if inRun then [] else ['-']) else [s[0]];
      assert Filter(head, NotDash) == if IsPlainChar(s[0]) then [s[0]] else [] by {
        assert [s[0]][1..] == [] && ['-'][1..] == [];
      }
      FilterAppend(head, rest, NotDash);
    }
  }

  lemma KeptPlainIsWord(c: char)
    requires IsKeptChar(c)
    ensures IsPlainChar(c) == IsWordChar(c)
  {
  }

  /** Among the characters `DropSpecials` keeps, the plain ones are the word characters. */
  lemma PlainIsWordAfterDrop(s: string)
    ensures Filter(DropSpecials(s), IsPlainChar) == Filter(DropSpecials(s), IsWordChar)
  {
    var kept := DropSpecials(s);
    forall i | 0 <= i < |kept|
      ensures IsPlainChar(kept[i]) == IsWordChar(kept[i])
    {
      KeptPlainIsWord(kept[i]);
    }
    FilterAgrees(kept, IsPlainChar, IsWordChar);
  }

  /** `.trim()`: drops leading and trailing white space. */
  function Trim(s: string): (r: string)
    ensures |r| <= |s|
  {
    TrimEnd(TrimStart(s))
  }

  function TrimStart(s: string): (r: string)
    ensures |r| <= |s|
  {
    if s != [] && IsJsWhitespace(s[0]) then TrimStart(s[1..]) else s
  }

  function TrimEnd(s: string): (r: string)
    ensures |r| <= |s|
  {
    if s != [] && IsJsWhitespace(s[|s| - 1]) then TrimEnd(s[..|s| - 1]) else s
  }

  /**
   * The slug of a title: the four string operations in order. It is slug
   * text; its characters other than `-` are exactly the word characters of
   * the lower-cased title, in order; it is empty exactly when the
   * lower-cased title holds no word character, white space or `-`; and a
   * title that is already slug text is its own slug.
   */
  function Slug(title: string): (slug: string)
    ensures IsSlugText(slug)
    ensures Filter(slug, NotDash) == Filter(ToLowerCase(title), IsWordChar)
    ensures slug == [] <==> forall i :: 0 <= i < |ToLowerCase(title)| ==> !IsKeptChar(ToLowerCase(title)[i])
    ensures IsSlugText(title) ==> slug == title
  {
    var lowered := ToLowerCase(title);
    var kept := DropSpecials(lowered);
    var dashed := CollapseWhitespace(kept, false);
    assert IsSlugText(dashed) by {
      forall i | 0 <= i < |dashed| && dashed[i] != '-'
        ensures IsSlugChar(dashed[i])
      {
        var j :| 0 <= j < |kept| && dashed[i] == kept[j];
        var k :| 0 <= k < |lowered| && kept[j] == lowered[k];
      }
    }
    TrimIsNoOpOnSlugText(dashed);
    assert Filter(dashed, NotDash) == Filter(lowered, IsWordChar) by {
      CollapseKeepsPlain(kept, false);
      PlainIsWordAfterDrop(lowered);
      DropSpecialsKeepsWords(lowered);
    }
    assert dashed == [] <==> kept == [];
    DropSpecialsEmpty(lowered);
    assert IsSlugText(title) ==> dashed == title by {
      if IsSlugText(title) {
        LowerCaseKeepsSlugText(title);
        DropSpecialsKeepsSlugText(title);
        CollapseKeepsSlugText(title, false);
      }
    }
    Trim(dashed)
  }

  /** Slug text has no white space for `trim` to remove. */
  lemma TrimIsNoOpOnSlugText(s: string)
    requires IsSlugText(s)
    ensures Trim(s) == s
  {
    if s != [] {
      assert !IsJsWhitespace(s[0]) && !IsJsWhitespace(s[|s| - 1]);
    }
  }

  lemma {:induction false} LowerCaseKeepsSlugText(s: string)
    requires IsSlugText(s)
    ensures ToLowerCase(s) == s
  {
    if s != [] {
      LowerCaseKeepsSlugText(s[1..]);
    }
  }

  lemma {:induction false} DropSpecialsKeepsSlugText(s: string)
    requires IsSlugText(s)
    ensures DropSpecials(s) == s
  {
    if s != [] {
      DropSpecialsKeepsSlugText(s[1..]);
    }
  }

  lemma {:induction false} CollapseKeepsSlugText(s: string, inRun: bool)
    requires IsSlugText(s)
    ensures CollapseWhitespace(s, inRun) == s
  {
    if s != [] {
      CollapseKeepsSlugText(s[1..], false);
    }
  }

  /** A slug is its own slug. */
  lemma SlugIsIdempotent(title: string)
    ensures Slug(Slug(title)) == Slug(title)
  {
    var s := Slug(title);
    LowerCaseKeepsSlugText(s);
    DropSpecialsKeepsSlugText(s);
    CollapseKeepsSlugText(s, false);
    TrimIsNoOpOnSlugText(s);
  }

  // ---------------------------------------------------------------- where the dashes go

  predicate AllWhitespace(w: string) {
    forall i :: 0 <= i < |w| ==> IsJsWhitespace(w[i])
  }

  /** Whether the text before `y` ends in white space once `x` has been read. */
  function EndsInRun(x: string, inRun: bool): bool {
    if x == [] then inRun else IsJsWhitespace(x[|x| - 1])
  }

  lemma {:induction false} LowerKeepsWhitespace(w: string)
    requires AllWhitespace(w)
    ensures ToLowerCase(w) == w
  {
    if w != [] {
      assert IsJsWhitespace(w[0]);
      assert LowerChar(w[0]) == [w[0]];
      assert AllWhitespace(w[1..]) by {
        assert forall i :: 0 <= i < |w[1..]| ==> w[1..][i] == w[i + 1];
      }
      LowerKeepsWhitespace(w[1..]);
      assert w == [w[0]] + w[1..];
    }
  }

  lemma {:induction false} DropSpecialsAppend(x: string, y: string)
    ensures DropSpecials(x + y) == DropSpecials(x) + DropSpecials(y)
  {
    if x == [] {
      assert x + y == y;
    } else {
      assert (x + y)[0] == x[0] && (x + y)[1..] == x[1..] + y;
      DropSpecialsAppend(x[1..], y);
    }
  }

  lemma {:induction false} DropSpecialsKeepsWhitespace(w: string)
    requires AllWhitespace(w)
    ensures DropSpecials(w) == w
  {
    if w != [] {
      assert IsKeptChar(w[0]) by {
        assert IsJsWhitespace(w[0]);
      }
      assert DropSpecials(w) == [w[0]] + DropSpecials(w[1..]);
      assert AllWhitespace(w[1..]) by {
        assert forall i :: 0 <= i < |w[1..]| ==> w[1..][i] == w[i + 1];
      }
      DropSpecialsKeepsWhitespace(w[1..]);
      assert w == [w[0]] + w[1..];
    }
  }

  /** Collapsing a concatenation collapses each part, the second starting where the first left off. */
  lemma {:induction false} CollapseAppend(x: string, y: string, inRun: bool)
    ensures CollapseWhitespace(x + y, inRun) == CollapseWhitespace(x, inRun) + CollapseWhitespace(y, EndsInRun(x, inRun))
  {
    if x == [] {
      assert x + y == y;
    } else {
      var white := IsJsWhitespace(x[0]);
      var head := if white then (if inRun then [] else ['-']) else [x[0]];
      var after := EndsInRun(x, inRun);
      assert CollapseWhitespace(x + y, inRun) == head + CollapseWhitespace(x[1..] + y, white) by {
        assert (x + y)[0] == x[0] && (x + y)[1..] == x[1..] + y;
      }
      assert EndsInRun(x[1..], white) == after by {
        if x[1..] != [] {
          assert x[1..][|x[1..]| - 1] == x[|x| - 1];
        }
      }
      assert CollapseWhitespace(x[1..] + y, white)
          == CollapseWhitespace(x[1..], white) + CollapseWhitespace(y, after) by {
        CollapseAppend(x[1..], y, white);
      }
      assert CollapseWhitespace(x, inRun) == head + CollapseWhitespace(x[1..], white);
      AppendAssoc(head, CollapseWhitespace(x[1..], white), CollapseWhitespace(y, after));
    }
  }

  /** A run of white space becomes one `-`, or nothing when it continues a run. */
  lemma {:induction false} CollapseRun(w: string, inRun: bool)
    requires w != [] && AllWhitespace(w)
    ensures CollapseWhitespace(w, inRun) == if inRun then [] else "-"
  {
    assert IsJsWhitespace(w[0]);
    if |w| > 1 {
      assert AllWhitespace(w[1..]) by {
        assert forall i :: 0 <= i < |w[1..]| ==> w[1..][i] == w[i + 1];
      }
      CollapseRun(w[1..], true);
    }
  }

  lemma LowerOfJoin(a: string, w: string, b: string)
    requires IsSlugText(a) && IsSlugText(b) && AllWhitespace(w)
    ensures ToLowerCase(a + w + b) == a + w + b
  {
    ToLowerCaseAppend(a + w, b);
    ToLowerCaseAppend(a, w);
    LowerCaseKeepsSlugText(a);
    LowerCaseKeepsSlugText(b);
    LowerKeepsWhitespace(w);
  }

  lemma DropSpecialsOfJoin(a: string, w: string, b: string)
    requires IsSlugText(a) && IsSlugText(b) && AllWhitespace(w)
    ensures DropSpecials(a + w + b) == a + w + b
  {
    DropSpecialsAppend(a + w, b);
    DropSpecialsAppend(a, w);
    DropSpecialsKeepsSlugText(a);
    DropSpecialsKeepsSlugText(b);
    DropSpecialsKeepsWhitespace(w);
  }

  lemma CollapseOfJoin(a: string, w: string, b: string)
    requires IsSlugText(a) && a != [] && IsSlugText(b)
    requires w != [] && AllWhitespace(w)
    ensures CollapseWhitespace(a + w + b, false) == a + "-" + b
  {
    assert !IsJsWhitespace(a[|a| - 1]) by {
      assert IsSlugChar(a[|a| - 1]);
    }
    assert EndsInRun(a + w, false) by {
      assert (a + w)[|a + w| - 1] == w[|w| - 1];
    }
    CollapseAppend(a + w, b, false);
    CollapseAppend(a, w, false);
    CollapseKeepsSlugText(a, false);
    CollapseKeepsSlugText(b, true);
    CollapseRun(w, false);
  }

  lemma JoinIsSlugText(a: string, b: string)
    requires IsSlugText(a) && IsSlugText(b)
    ensures IsSlugText(a + "-" + b)
  {
    var joined := a + "-" + b;
    forall i | 0 <= i < |joined|
      ensures IsSlugChar(joined[i])
    {
      if i < |a| {
        assert joined[i] == a[i];
      } else if i > |a| {
        assert joined[i] == b[i - |a| - 1];
      }
    }
  }

  /**
   * The white space between two words becomes exactly one `-`: two pieces
   * of slug text separated by any non-empty run of white space slug to the
   * two pieces joined by a single dash.
   */
  lemma SlugJoinsWords(a: string, w: string, b: string)
    requires IsSlugText(a) && a != []
    requires IsSlugText(b) && b != []
    requires w != [] && AllWhitespace(w)
    ensures Slug(a + w + b) == a + "-" + b
  {
    LowerOfJoin(a, w, b);
    DropSpecialsOfJoin(a, w, b);
    CollapseOfJoin(a, w, b);
    JoinIsSlugText(a, b);
    TrimIsNoOpOnSlugText(a + "-" + b);
  }
}
