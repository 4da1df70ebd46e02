/**
 The style map of a table as a value: a partial map from component to the
 one character that draws it, and what the preset and modifier parsers make
 of it. The class in module Table updates its map exactly as these
 functions say.
 */
module StyleMap {
  import opened Wrappers
  import opened Components

  /** An absent component is not drawn; a present one is drawn with its character. */
  type Style = map<Component, char>

  /** The character a style assigns to `c`, if any. */
  function Lookup(m: Style, c: Component): Option<char>
  {
    if c in m then Some(m[c]) else None
  }

  /** Two styles that agree on every component are the same style. */
  lemma LookupExtensional(a: Style, b: Style)
    requires forall c :: Lookup(a, c) == Lookup(b, c)
    ensures a == b
  {
    assert forall c :: c in a <==> c in b by {
      forall c ensures c in a <==> c in b {
        assert Lookup(a, c).Some? == Lookup(b, c).Some?;
      }
    }
    forall c | c in a ensures a[c] == b[c] {
      assert Lookup(a, c) == Lookup(b, c);
    }
  }

  // ---------------------------------------------------------------------------
  // Presets
  // ---------------------------------------------------------------------------

  /** What one preset character asks for: a space means "do not draw". */
  function PresetEntry(ch: char): Option<char>
  {
    if ch == ' ' then None else Some(ch)
  }

  /** Sets `c` to `e`: inserts the character, or removes the mapping on None. */
  function Put(m: Style, c: Component, e: Option<char>): Style
  {
    match e
    case None => m - {c}
    case Some(ch) => m[c := ch]
  }

  /** Setting one component changes the lookup of that component only. */
  lemma PutAt(m: Style, d: Component, e: Option<char>, c: Component)
    ensures Lookup(Put(m, d, e), c) == if c == d then e else Lookup(m, c)
  {
  }

  /** The style after a preset walk over `s`, one character per component in
      canonical order; the walk ends when either runs out. Defined over the
      prefix read so far, as the parser's loop reads it. */
  function AfterPreset(m: Style, s: seq<char>): Style
    decreases |s|
  {
    if s == [] then m
    else
      var k := |s| - 1;
      var before := AfterPreset(m, s[..k]);
      if k < |AllComponents| then Put(before, AllComponents[k], PresetEntry(s[k])) else before
  }

  /** Reading one more preset character below the component count sets or
      removes the next component. */
  lemma PresetStep(m: Style, s: seq<char>, i: nat)
    requires i < |s| && i < |AllComponents|
    ensures AfterPreset(m, s[..i + 1]) == Put(AfterPreset(m, s[..i]), AllComponents[i], PresetEntry(s[i]))
  {
    assert s[..i + 1][..i] == s[..i];
  }

  /** Component `c` ends up as the preset character at its position says when
      the preset reaches it, and as it was before otherwise. */
  lemma {:induction false} AfterPresetAt(m: Style, s: seq<char>, c: Component)
    ensures Lookup(AfterPreset(m, s), c)
         == if Ordinal(c) < |s| then PresetEntry(s[Ordinal(c)]) else Lookup(m, c)
    decreases |s|
  {
    if s != [] {
      var k, o := |s| - 1, Ordinal(c);
      var before := AfterPreset(m, s[..k]);
      AfterPresetAt(m, s[..k], c);
      assert o < k ==> s[..k][o] == s[o];
      if k < |AllComponents| {
        OrdinalOfPosition(k);
        PutAt(before, AllComponents[k], PresetEntry(s[k]), c);
      }
    }
  }

  /** Characters past the last component change nothing. */
  lemma PresetIgnoresTail(m: Style, s: seq<char>)
    requires |s| >= ComponentCount
    ensures AfterPreset(m, s) == AfterPreset(m, s[..ComponentCount])
  {
    forall c ensures Lookup(AfterPreset(m, s), c) == Lookup(AfterPreset(m, s[..ComponentCount]), c) {
      AfterPresetAt(m, s, c);
      AfterPresetAt(m, s[..ComponentCount], c);
    }
    LookupExtensional(AfterPreset(m, s), AfterPreset(m, s[..ComponentCount]));
  }

  /** Loading the same preset twice is the same as loading it once. */
  lemma PresetIdempotent(m: Style, s: seq<char>)
    ensures AfterPreset(AfterPreset(m, s), s) == AfterPreset(m, s)
  {
    var once := AfterPreset(m, s);
    forall c ensures Lookup(AfterPreset(once, s), c) == Lookup(once, c) {
      AfterPresetAt(once, s, c);
      AfterPresetAt(m, s, c);
    }
    LookupExtensional(AfterPreset(once, s), once);
  }

  /** A preset that covers every component overwrites the whole style: what
      was configured before no longer matters. */
  lemma FullPresetForgetsPrior(m: Style, m': Style, s: seq<char>)
    requires |s| >= ComponentCount
    ensures AfterPreset(m, s) == AfterPreset(m', s)
  {
    forall c ensures Lookup(AfterPreset(m, s), c) == Lookup(AfterPreset(m', s), c) {
      AfterPresetAt(m, s, c);
      AfterPresetAt(m', s, c);
    }
    LookupExtensional(AfterPreset(m, s), AfterPreset(m', s));
  }

  // ---------------------------------------------------------------------------
  // Modifiers
  // ---------------------------------------------------------------------------

  /** The characters of `s` that are not spaces, in order. */
  function NonSpace(s: seq<char>): (t: seq<char>)
    ensures |t| <= |s|
    decreases |s|
  {
    if s == [] then []
    else
      var k := |s| - 1;
      NonSpace(s[..k]) + if s[k] == ' ' then [] else [s[k]]
  }

  /** The space-free form has no spaces. */
  lemma {:induction false} NonSpaceHasNoSpaces(s: seq<char>)
    ensures ' ' !in NonSpace(s)
    decreases |s|
  {
    if s != [] {
      NonSpaceHasNoSpaces(s[..|s| - 1]);
    }
  }

  /** Dropping spaces keeps every other character, as often as it occurs. */
  lemma {:induction false} NonSpaceKeepsOthers(s: seq<char>, ch: char)
    requires ch != ' '
    ensures multiset(NonSpace(s))[ch] == multiset(s)[ch]
    decreases |s|
  {
    if s != [] {
      var k := |s| - 1;
      assert s == s[..k] + [s[k]];
      NonSpaceKeepsOthers(s[..k], ch);
    }
  }

  /** Reading one more character of `s` adds it to the space-free form unless it is a space. */
  lemma NonSpaceStep(s: seq<char>, i: nat)
    requires i < |s|
    ensures s[i] == ' ' ==> NonSpace(s[..i + 1]) == NonSpace(s[..i])
    ensures s[i] != ' ' ==> NonSpace(s[..i + 1]) == NonSpace(s[..i]) + [s[i]]
  {
    assert s[..i + 1][..i] == s[..i];
    assert NonSpace(s[..i]) + [] == NonSpace(s[..i]);
  }

  /** Dropping spaces distributes over concatenation. */
  lemma {:induction false} NonSpaceAppend(a: seq<char>, b: seq<char>)
    ensures NonSpace(a + b) == NonSpace(a) + NonSpace(b)
    decreases |b|
  {
    if b == [] {
      assert a + b == a;
    } else {
      var k := |b| - 1;
      var ab, e := a + b, if b[k] == ' ' then [] else [b[k]];
      assert ab[..|ab| - 1] == a + b[..k];
      assert NonSpace(ab) == NonSpace(a + b[..k]) + e;
      NonSpaceAppend(a, b[..k]);
      assert NonSpace(b) == NonSpace(b[..k]) + e;
      assert NonSpace(a) + NonSpace(b[..k]) + e == NonSpace(a) + (NonSpace(b[..k]) + e);
    }
  }

  /** A string without spaces is its own space-free form. */
  lemma {:induction false} NonSpaceOfSpaceFree(s: seq<char>)
    requires ' ' !in s
    ensures NonSpace(s) == s
    decreases |s|
  {
    if s != [] {
      var k := |s| - 1;
      NonSpaceOfSpaceFree(s[..k]);
      assert s == s[..k] + [s[k]];
    }
  }

  /** The style after writing `t[k]` to the k-th component, for every k below
      both |t| and the number of components. Nothing is removed. */
  function Overlay(m: Style, t: seq<char>): Style
    decreases |t|
  {
    if t == [] then m
    else
      var k := |t| - 1;
      var before := Overlay(m, t[..k]);
      if k < |AllComponents| then Put(before, AllComponents[k], Some(t[k])) else before
  }

  /** One more overlay character below the component count writes the next component. */
  lemma OverlayStep(m: Style, t: seq<char>, ch: char)
    requires |t| < |AllComponents|
    ensures Overlay(m, t + [ch]) == Overlay(m, t)[AllComponents[|t|] := ch]
  {
    assert (t + [ch])[..|t|] == t;
  }

  lemma {:induction false} OverlayAt(m: Style, t: seq<char>, c: Component)
    ensures Lookup(Overlay(m, t), c)
         == if Ordinal(c) < |t| then Some(t[Ordinal(c)]) else Lookup(m, c)
    decreases |t|
  {
    if t != [] {
      var k, o := |t| - 1, Ordinal(c);
      var before := Overlay(m, t[..k]);
      OverlayAt(m, t[..k], c);
      assert o < k ==> t[..k][o] == t[o];
      if k < |AllComponents| {
        OrdinalOfPosition(k);
        PutAt(before, AllComponents[k], Some(t[k]), c);
      }
    }
  }

  /** Only the first ComponentCount characters of an overlay matter. */
  lemma OverlayIgnoresTail(m: Style, t: seq<char>, n: nat)
    requires ComponentCount <= n <= |t|
    ensures Overlay(m, t) == Overlay(m, t[..n])
  {
    forall c ensures Lookup(Overlay(m, t), c) == Lookup(Overlay(m, t[..n]), c) {
      OverlayAt(m, t, c);
      OverlayAt(m, t[..n], c);
    }
    LookupExtensional(Overlay(m, t), Overlay(m, t[..n]));
  }

  /** One more modifier character: a space changes nothing; another
      character, while components remain, overwrites the next component. */
  lemma ModifierStep(m: Style, s: seq<char>, i: nat)
    requires i < |s|
    ensures s[i] == ' ' ==>
      && NonSpace(s[..i + 1]) == NonSpace(s[..i])
      && AfterModifier(m, s[..i + 1]) == AfterModifier(m, s[..i])
    ensures s[i] != ' ' && |NonSpace(s[..i])| < ComponentCount ==>
      && |NonSpace(s[..i + 1])| == |NonSpace(s[..i])| + 1
      && AfterModifier(m, s[..i + 1])
         == AfterModifier(m, s[..i])[AllComponents[|NonSpace(s[..i])|] := s[i]]
  {
    NonSpaceStep(s, i);
    if s[i] != ' ' && |NonSpace(s[..i])| < ComponentCount {
      OverlayStep(m, NonSpace(s[..i]), s[i]);
    }
  }

  /** When every component is taken, the rest of the modifier changes nothing. */
  lemma ModifierStopsWhenComponentsRunOut(m: Style, s: seq<char>, i: nat)
    requires i <= |s|
    requires |NonSpace(s[..i])| >= ComponentCount
    ensures AfterModifier(m, s[..i]) == AfterModifier(m, s)
  {
    var done, rest := s[..i], s[i..];
    assert s == done + rest;
    NonSpaceAppend(done, rest);
    assert NonSpace(s)[..|NonSpace(done)|] == NonSpace(done);
    OverlayIgnoresTail(m, NonSpace(s), |NonSpace(done)|);
  }

  /** The style after a modifier walk over `s`: spaces are dropped before a
      component is taken, so the k-th non-space character goes to the k-th
      component. */
  function AfterModifier(m: Style, s: seq<char>): Style
  {
    Overlay(m, NonSpace(s))
  }

  /** Component `c` ends up as the non-space character at its position, if the
      modifier has that many non-space characters, and as it was before otherwise. */
  lemma AfterModifierAt(m: Style, s: seq<char>, c: Component)
    ensures Lookup(AfterModifier(m, s), c)
         == if Ordinal(c) < |NonSpace(s)| then Some(NonSpace(s)[Ordinal(c)]) else Lookup(m, c)
  {
    OverlayAt(m, NonSpace(s), c);
  }

  /** A modifier never removes a mapping, and never changes a mapping to a space. */
  lemma ModifierOnlyAdds(m: Style, s: seq<char>)
    ensures m.Keys <= AfterModifier(m, s).Keys
    ensures forall c :: c in AfterModifier(m, s) && c !in m ==> AfterModifier(m, s)[c] != ' '
  {
    var r, t := AfterModifier(m, s), NonSpace(s);
    NonSpaceHasNoSpaces(s);
    forall c | c in m ensures c in r {
      AfterModifierAt(m, s, c);
    }
    forall c | c in r && c !in m ensures r[c] != ' ' {
      AfterModifierAt(m, s, c);
      assert Ordinal(c) < |t| && r[c] == t[Ordinal(c)];
    }
  }

  /** Applying the same modifier twice is the same as applying it once. */
  lemma ModifierIdempotent(m: Style, s: seq<char>)
    ensures AfterModifier(AfterModifier(m, s), s) == AfterModifier(m, s)
  {
    var once := AfterModifier(m, s);
    forall c ensures Lookup(AfterModifier(once, s), c) == Lookup(once, c) {
      AfterModifierAt(once, s, c);
      AfterModifierAt(m, s, c);
    }
    LookupExtensional(AfterModifier(once, s), once);
  }

  /** On a string without spaces the two parsers agree: modifier and preset
      differ only in what a space means. */
  lemma ModifierAgreesWithPresetWithoutSpaces(m: Style, s: seq<char>)
    requires ' ' !in s
    ensures AfterModifier(m, s) == AfterPreset(m, s)
  {
    NonSpaceOfSpaceFree(s);
    forall c ensures Lookup(AfterModifier(m, s), c) == Lookup(AfterPreset(m, s), c) {
      AfterModifierAt(m, s, c);
      AfterPresetAt(m, s, c);
    }
    LookupExtensional(AfterModifier(m, s), AfterPreset(m, s));
  }

  /** Preset "AB C" on the first four components: the space hides
      TopBorder, the other three get their characters. */
  lemma PresetExample(m: Style)
    ensures Lookup(AfterPreset(m, "AB C"), LeftBorder) == Some('A')
    ensures Lookup(AfterPreset(m, "AB C"), RightBorder) == Some('B')
    ensures Lookup(AfterPreset(m, "AB C"), TopBorder) == None
    ensures Lookup(AfterPreset(m, "AB C"), BottomBorder) == Some('C')
    ensures Lookup(AfterPreset(m, "AB C"), TopLeftCorner) == Lookup(m, TopLeftCorner)
  {
    AfterPresetAt(m, "AB C", LeftBorder);
    AfterPresetAt(m, "AB C", RightBorder);
    AfterPresetAt(m, "AB C", TopBorder);
    AfterPresetAt(m, "AB C", BottomBorder);
    AfterPresetAt(m, "AB C", TopLeftCorner);
  }

  /** Modifier "X Y": its space is dropped before a component is taken, so
      "Y" lands on RightBorder (the second component), and TopBorder and
      BottomBorder keep what they had. */
  lemma ModifierExample(m: Style)
    ensures Lookup(AfterModifier(m, "X Y"), LeftBorder) == Some('X')
    ensures Lookup(AfterModifier(m, "X Y"), RightBorder) == Some('Y')
    ensures Lookup(AfterModifier(m, "X Y"), TopBorder) == Lookup(m, TopBorder)
    ensures Lookup(AfterModifier(m, "X Y"), BottomBorder) == Lookup(m, BottomBorder)
  {
    assert NonSpace("X Y") == "XY" by {
      assert "X Y"[..2] == "X ";
      assert "X "[..1] == "X";
      assert "X"[..0] == [];
    }
    AfterModifierAt(m, "X Y", LeftBorder);
    AfterModifierAt(m, "X Y", RightBorder);
    AfterModifierAt(m, "X Y", TopBorder);
    AfterModifierAt(m, "X Y", BottomBorder);
  }
}
