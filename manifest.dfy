/** The ledger of installed typefaces (fonty/models/manifest.py): an ordered
    list of typefaces, each an ordered list of installed fonts, updated in
    place by `add` and `remove` and searched by case-insensitive name. */
module FontManifest {
  import opened Base

  /** One installed font file. `variant` is the text the ledger compares,
      `str(font.variant)`: the ledger never looks at a variant any other way. */
  datatype InstalledFont = InstalledFont(
    family: string,
    variant: string,
    installedPath: string,
    registryPath: Option<string>)

  /** Why `remove` raised. */
  datatype RemoveError =
    | TypefaceNotFound   // no typeface has the name (the bare `raise Exception` of the lookup)
    | ListNotCallable    // `self.typefaces(...)`: the list is called as a function
    | VariantNotFound    // no remaining font has one of the requested variants

  /** A family of installed fonts. Its name never changes; its list of fonts
      is mutated in place, through whichever reference reaches it. */
  class Typeface {
    const name: string
    var fonts: seq<InstalledFont>

    constructor (name: string)
      ensures this.name == name && fonts == []
    {
      this.name := name;
      fonts := [];
    }
  }

  /** `a.lower() == b.lower()` */
  predicate NameMatches(a: string, b: string)
  {
    Lower(a) == Lower(b)
  }

  /** The variant texts of a typeface's fonts, in order. */
  function Variants(fonts: seq<InstalledFont>): seq<string>
  {
    seq(|fonts|, i requires 0 <= i < |fonts| => fonts[i].variant)
  }

  /** No two fonts of one typeface share a variant. */
  predicate UniqueVariants(fonts: seq<InstalledFont>)
  {
    forall i, j :: 0 <= i < j < |fonts| ==> fonts[i].variant != fonts[j].variant
  }

  /** Appending a font with a new variant keeps the variants unique. */
  lemma AppendKeepsUnique(fonts: seq<InstalledFont>, font: InstalledFont)
    requires UniqueVariants(fonts)
    requires font.variant !in Variants(fonts)
    ensures UniqueVariants(fonts + [font])
  {
    var r := fonts + [font];
    forall i, j | 0 <= i < j < |r| ensures r[i].variant != r[j].variant {
      if j == |fonts| {
        assert r[i].variant == Variants(fonts)[i];
      }
    }
  }

  /** `list.pop(i)`, as a value. */
  function RemoveAt<T>(s: seq<T>, i: nat): (r: seq<T>)
    requires i < |s|
  {
    s[..i] + s[i + 1..]
  }

  // ---------------------------------------------------------------------
  // Lookup by name
  // ---------------------------------------------------------------------

  /** Position of the first typeface whose name equals `name` ignoring case. */
  function FindTypeface(ts: seq<Typeface>, name: string): (r: Option<nat>)
    ensures r.Some? ==> r.value < |ts| && NameMatches(ts[r.value].name, name)
    ensures r.Some? ==> forall j :: 0 <= j < r.value ==> !NameMatches(ts[j].name, name)
    ensures r.None? ==> forall j :: 0 <= j < |ts| ==> !NameMatches(ts[j].name, name)
  {
    if ts == [] then None
    else if NameMatches(ts[0].name, name) then Some(0)
    else match FindTypeface(ts[1..], name)
      case None => None
      case Some(j) => Some(j + 1)
  }

  /** The first typeface whose name equals `name` ignoring case. */
  function FirstTypeface(ts: seq<Typeface>, name: string): Option<Typeface>
  {
    if ts == [] then None
    else if NameMatches(ts[0].name, name) then Some(ts[0])
    else FirstTypeface(ts[1..], name)
  }

  /** The object search and the index search find the same typeface. */
  lemma {:induction false} FirstTypefaceAgrees(ts: seq<Typeface>, name: string)
    ensures FindTypeface(ts, name).None? ==> FirstTypeface(ts, name) == None
    ensures FindTypeface(ts, name).Some? ==>
      FirstTypeface(ts, name) == Some(ts[FindTypeface(ts, name).value])
  {
    if ts != [] && !NameMatches(ts[0].name, name) {
      FirstTypefaceAgrees(ts[1..], name);
    }
  }

  /** Two queries that lower-case alike find the same typeface. */
  lemma {:induction false} LookupIgnoresCase(ts: seq<Typeface>, a: string, b: string)
    requires Lower(a) == Lower(b)
    ensures FindTypeface(ts, a) == FindTypeface(ts, b)
    ensures FirstTypeface(ts, a) == FirstTypeface(ts, b)
  {
    if ts != [] {
      LookupIgnoresCase(ts[1..], a, b);
    }
  }

  // ---------------------------------------------------------------------
  // Removing fonts by variant
  // ---------------------------------------------------------------------

  /** Position of the first font whose variant text is one of `vs`. */
  function FirstMatching(fonts: seq<InstalledFont>, vs: seq<string>): (r: Option<nat>)
    ensures r.Some? ==> r.value < |fonts| && fonts[r.value].variant in vs
    ensures r.Some? ==> forall j :: 0 <= j < r.value ==> fonts[j].variant !in vs
    ensures r.None? ==> forall j :: 0 <= j < |fonts| ==> fonts[j].variant !in vs
  {
    if fonts == [] then None
    else if fonts[0].variant in vs then Some(0)
    else match FirstMatching(fonts[1..], vs)
      case None => None
      case Some(j) => Some(j + 1)
  }

  /** How many fonts have a variant text among `vs`. */
  function MatchCount(fonts: seq<InstalledFont>, vs: seq<string>): nat
  {
    if fonts == [] then 0
    else (if fonts[0].variant in vs then 1 else 0) + MatchCount(fonts[1..], vs)
  }

  /** The fonts whose variant text is not among `vs`, in order. */
  function Without(fonts: seq<InstalledFont>, vs: seq<string>): seq<InstalledFont>
  {
    if fonts == [] then []
    else if fonts[0].variant in vs then Without(fonts[1..], vs)
    else [fonts[0]] + Without(fonts[1..], vs)
  }

  /** `fonts` with its first `k` fonts whose variant text is among `vs` taken
      out: the list left after `k` rounds of "pop the first matching font". */
  function DropMatching(fonts: seq<InstalledFont>, vs: seq<string>, k: nat): seq<InstalledFont>
  {
    if fonts == [] then []
    else if k > 0 && fonts[0].variant in vs then DropMatching(fonts[1..], vs, k - 1)
    else [fonts[0]] + DropMatching(fonts[1..], vs, k)
  }

  /** Searching a list with a known first font. */
  lemma FirstMatchingCons(h: InstalledFont, d: seq<InstalledFont>, vs: seq<string>)
    ensures h.variant in vs ==> FirstMatching([h] + d, vs) == Some(0)
    ensures h.variant !in vs && FirstMatching(d, vs).None? ==> FirstMatching([h] + d, vs) == None
    ensures h.variant !in vs && FirstMatching(d, vs).Some? ==>
      FirstMatching([h] + d, vs) == Some(FirstMatching(d, vs).value + 1)
  {
    assert ([h] + d)[1..] == d;
  }

  /** The removal loop once `k` reaches the number of matching fonts: the
      search finds nothing more. */
  lemma {:induction false} DropStepExhausted(fonts: seq<InstalledFont>, vs: seq<string>, k: nat)
    requires MatchCount(fonts, vs) <= k
    ensures FirstMatching(DropMatching(fonts, vs, k), vs) == None
  {
    if fonts != [] {
      var h, t := fonts[0], fonts[1..];
      if h.variant in vs {
        DropStepExhausted(t, vs, k - 1);
      } else {
        DropStepExhausted(t, vs, k);
        FirstMatchingCons(h, DropMatching(t, vs, k), vs);
      }
    }
  }

  /** One round of the removal loop while matching fonts remain: popping the
      first matching font takes the closed form from `k` to `k + 1`. */
  lemma {:induction false} DropStepFound(fonts: seq<InstalledFont>, vs: seq<string>, k: nat)
    requires k < MatchCount(fonts, vs)
    ensures FirstMatching(DropMatching(fonts, vs, k), vs).Some?
    ensures RemoveAt(DropMatching(fonts, vs, k), FirstMatching(DropMatching(fonts, vs, k), vs).value)
         == DropMatching(fonts, vs, k + 1)
  {
    var h, t := fonts[0], fonts[1..];
    if h.variant in vs {
      if k > 0 {
        DropStepFound(t, vs, k - 1);
      } else {
        var d := DropMatching(t, vs, 0);
        assert DropMatching(fonts, vs, 0) == [h] + d;
        FirstMatchingCons(h, d, vs);
        assert RemoveAt([h] + d, 0) == d;
      }
    } else {
      DropStepFound(t, vs, k);
      var d := DropMatching(t, vs, k);
      FirstMatchingCons(h, d, vs);
      var m := FirstMatching(d, vs).value;
      assert RemoveAt([h] + d, m + 1) == [h] + RemoveAt(d, m);
    }
  }

  /** With nothing to pop the list is unchanged. */
  lemma {:induction false} DropNothing(fonts: seq<InstalledFont>, vs: seq<string>)
    ensures DropMatching(fonts, vs, 0) == fonts
  {
    if fonts != [] {
      DropNothing(fonts[1..], vs);
    }
  }

  /** Popping `k` matching fonts shortens the list by exactly `k`. */
  lemma {:induction false} DropLength(fonts: seq<InstalledFont>, vs: seq<string>, k: nat)
    requires k <= MatchCount(fonts, vs)
    ensures |DropMatching(fonts, vs, k)| == |fonts| - k
  {
    if fonts != [] {
      if k > 0 && fonts[0].variant in vs {
        DropLength(fonts[1..], vs, k - 1);
      } else {
        DropLength(fonts[1..], vs, k);
      }
    }
  }

  /** Fonts with other variants are never popped and keep their order. */
  lemma {:induction false} DropKeepsOthers(fonts: seq<InstalledFont>, vs: seq<string>, k: nat)
    ensures Without(DropMatching(fonts, vs, k), vs) == Without(fonts, vs)
  {
    if fonts != [] {
      var h, t := fonts[0], fonts[1..];
      if k > 0 && h.variant in vs {
        DropKeepsOthers(t, vs, k - 1);
      } else {
        DropKeepsOthers(t, vs, k);
        assert ([h] + DropMatching(t, vs, k))[1..] == DropMatching(t, vs, k);
      }
    }
  }

  /** Once every matching font is popped, exactly the others remain. */
  lemma {:induction false} DropAllIsWithout(fonts: seq<InstalledFont>, vs: seq<string>, k: nat)
    requires MatchCount(fonts, vs) <= k
    ensures DropMatching(fonts, vs, k) == Without(fonts, vs)
  {
    if fonts != [] {
      if fonts[0].variant in vs {
        DropAllIsWithout(fonts[1..], vs, k - 1);
      } else {
        DropAllIsWithout(fonts[1..], vs, k);
      }
    }
  }

  /** Popping only ever takes fonts out. */
  lemma {:induction false} DropSubset(fonts: seq<InstalledFont>, vs: seq<string>, k: nat)
    ensures forall x :: x in DropMatching(fonts, vs, k) ==> x in fonts
  {
    if fonts != [] {
      if k > 0 && fonts[0].variant in vs {
        DropSubset(fonts[1..], vs, k - 1);
      } else {
        DropSubset(fonts[1..], vs, k);
      }
    }
  }

  /** Popping keeps a typeface free of repeated variants. */
  lemma {:induction false} DropKeepsUnique(fonts: seq<InstalledFont>, vs: seq<string>, k: nat)
    requires UniqueVariants(fonts)
    ensures UniqueVariants(DropMatching(fonts, vs, k))
  {
    if fonts != [] {
      var h, t := fonts[0], fonts[1..];
      if k > 0 && h.variant in vs {
        DropKeepsUnique(t, vs, k - 1);
      } else {
        DropKeepsUnique(t, vs, k);
        var d := DropMatching(t, vs, k);
        DropSubset(t, vs, k);
        forall j | 0 <= j < |d| ensures d[j].variant != h.variant {
          assert d[j] in t;
        }
        var r := [h] + d;
        forall a, b | 0 <= a < b < |r| ensures r[a].variant != r[b].variant {
          if a > 0 {
            assert r[a] == d[a - 1] && r[b] == d[b - 1];
          }
        }
      }
    }
  }

  /** The distinct variant texts of a typeface. */
  function VariantSet(fonts: seq<InstalledFont>): set<string>
  {
    set i | 0 <= i < |fonts| :: fonts[i].variant
  }

  /** The variant set of a typeface is its first variant plus those of the
      rest; with unique variants the first is not among the rest. */
  lemma VariantSetCons(fonts: seq<InstalledFont>)
    requires fonts != []
    requires UniqueVariants(fonts)
    ensures VariantSet(fonts) == {fonts[0].variant} + VariantSet(fonts[1..])
    ensures fonts[0].variant !in VariantSet(fonts[1..])
  {
    var h, t := fonts[0], fonts[1..];
    forall x | x in VariantSet(fonts) ensures x in {h.variant} + VariantSet(t) {
      var i :| 0 <= i < |fonts| && fonts[i].variant == x;
      if i > 0 { assert t[i - 1] == fonts[i]; }
    }
    forall x | x in VariantSet(t) ensures x in VariantSet(fonts) && x != h.variant {
      var i :| 0 <= i < |t| && t[i].variant == x;
      assert fonts[i + 1] == t[i];
    }
  }

  /** With unique variants, the matching fonts are as many as the requested
      variant texts that the typeface has. */
  lemma {:induction false} MatchCountIsShared(fonts: seq<InstalledFont>, vs: seq<string>)
    requires UniqueVariants(fonts)
    ensures MatchCount(fonts, vs) == |VariantSet(fonts) * (set v | v in vs)|
  {
    if fonts == [] {
      assert VariantSet(fonts) == {};
    } else {
      var t := fonts[1..];
      assert UniqueVariants(t) by {
        forall i, j | 0 <= i < j < |t| ensures t[i].variant != t[j].variant {
          assert t[i] == fonts[i + 1] && t[j] == fonts[j + 1];
        }
      }
      MatchCountIsShared(t, vs);
      VariantSetCons(fonts);
      SharedCons(fonts[0].variant, VariantSet(t), set v | v in vs);
    }
  }

  /** Intersecting with one more element that the rest lacks adds one to the
      size exactly when the element is wanted. */
  lemma SharedCons(x: string, rest: set<string>, wanted: set<string>)
    requires x !in rest
    ensures |({x} + rest) * wanted| == |rest * wanted| + (if x in wanted then 1 else 0)
  {
    if x in wanted {
      assert ({x} + rest) * wanted == {x} + rest * wanted;
    } else {
      assert ({x} + rest) * wanted == rest * wanted;
    }
  }

  /** A sequence has at most as many distinct elements as entries, and
      exactly as many when it has no repetitions. */
  lemma {:induction false} SeqSetCard(vs: seq<string>)
    ensures |set v | v in vs| <= |vs|
    ensures |set v | v in vs| == |vs| <==> Distinct(vs)
  {
    if vs != [] {
      var t := vs[1..];
      SeqSetCard(t);
      assert (set v | v in vs) == {vs[0]} + (set v | v in t);
      if vs[0] in t {
        var i :| 0 <= i < |t| && t[i] == vs[0];
        assert vs[i + 1] == vs[0];
      } else {
        assert Distinct(vs) <==> Distinct(t) by {
          if Distinct(vs) {
            forall i, j | 0 <= i < j < |t| ensures t[i] != t[j] {
              assert t[i] == vs[i + 1] && t[j] == vs[j + 1];
            }
          }
          if Distinct(t) {
            forall i, j | 0 <= i < j < |vs| ensures vs[i] != vs[j] {
              assert vs[j] == t[j - 1];
              if i > 0 {
                assert vs[i] == t[i - 1];
              }
            }
          }
        }
      }
    }
  }

  /** A subset is no larger, and a proper subset is smaller. */
  lemma {:induction false} SubsetCard(a: set<string>, b: set<string>)
    requires a <= b
    ensures |a| <= |b|
    ensures a < b ==> |a| < |b|
  {
    if a != {} {
      var x :| x in a;
      SubsetCard(a - {x}, b - {x});
    } else if a < b {
      var y :| y in b;
    }
  }

  /** Removing a list of distinct variants that the typeface all has (its
      variants being unique) pops exactly one font per requested variant and
      leaves exactly the fonts with the other variants. */
  lemma ExactRemoval(fonts: seq<InstalledFont>, vs: seq<string>)
    requires UniqueVariants(fonts)
    requires Distinct(vs)
    requires forall v :: v in vs ==> v in VariantSet(fonts)
    ensures MatchCount(fonts, vs) == |vs|
    ensures DropMatching(fonts, vs, |vs|) == Without(fonts, vs)
  {
    MatchCountIsShared(fonts, vs);
    SeqSetCard(vs);
    assert VariantSet(fonts) * (set v | v in vs) == (set v | v in vs);
    DropAllIsWithout(fonts, vs, |vs|);
  }

  /** For a typeface with unique variants, there are as many matching fonts as
      requested entries exactly when the entries are distinct and all present;
      then the requested variants, and only they, are gone after the pops. */
  lemma RemovalSucceedsIff(fonts: seq<InstalledFont>, vs: seq<string>)
    requires UniqueVariants(fonts)
    ensures |vs| <= MatchCount(fonts, vs) <==>
      Distinct(vs) && forall v :: v in vs ==> v in VariantSet(fonts)
    ensures |vs| <= MatchCount(fonts, vs) ==> DropMatching(fonts, vs, |vs|) == Without(fonts, vs)
  {
    var wanted := set v | v in vs;
    var shared := VariantSet(fonts) * wanted;
    MatchCountIsShared(fonts, vs);
    SeqSetCard(vs);
    SubsetCard(shared, wanted);
    if |vs| <= MatchCount(fonts, vs) {
      assert shared == wanted;
      forall v | v in vs ensures v in VariantSet(fonts) {
        assert v in wanted;
      }
      ExactRemoval(fonts, vs);
    } else if Distinct(vs) && forall v :: v in vs ==> v in VariantSet(fonts) {
      ExactRemoval(fonts, vs);
    }
  }

  // ---------------------------------------------------------------------
  // The ledger
  // ---------------------------------------------------------------------

  /** No two typefaces have names that are equal ignoring case. */
  predicate NamesDistinct(ts: seq<Typeface>)
  {
    forall i, j :: 0 <= i < j < |ts| ==> !NameMatches(ts[i].name, ts[j].name)
  }

  /** Dropping one typeface keeps the names distinct. */
  lemma NamesDistinctWithout(ts: seq<Typeface>, i: nat)
    requires i < |ts|
    requires NamesDistinct(ts)
    ensures NamesDistinct(ts[..i] + ts[i + 1..])
  {
    var r := ts[..i] + ts[i + 1..];
    forall a, b | 0 <= a < b < |r| ensures !NameMatches(r[a].name, r[b].name) {
      var a', b' := if a < i then a else a + 1, if b < i then b else b + 1;
      assert r[a] == ts[a'] && r[b] == ts[b'];
    }
  }

  /** Once the one typeface a name matches is dropped from a list with
      distinct names, the name finds nothing. */
  lemma NameGoneWithout(ts: seq<Typeface>, i: nat, name: string)
    requires i < |ts|
    requires NamesDistinct(ts)
    requires NameMatches(ts[i].name, name)
    ensures FindTypeface(ts[..i] + ts[i + 1..], name).None?
  {
    var r := ts[..i] + ts[i + 1..];
    forall a | 0 <= a < |r| ensures !NameMatches(r[a].name, name) {
      if a < i {
        assert r[a] == ts[a];
      } else {
        assert r[a] == ts[a + 1];
      }
    }
  }

  class Manifest {
    var typefaces: seq<Typeface>

    /** The typefaces as given (the timestamp is not modelled). */
    constructor (typefaces: seq<Typeface>)
      ensures this.typefaces == typefaces
    {
      this.typefaces := typefaces;
    }

    /** Typeface names are unique ignoring case, and no typeface repeats a
        variant. `add` and `remove` keep this. */
    ghost predicate Valid()
      reads this, typefaces
    {
      && NamesDistinct(typefaces)
      && (forall t :: t in typefaces ==> UniqueVariants(t.fonts))
    }

    /** `get_index`: position of the first typeface named `name`, ignoring case. */
    function GetIndex(name: string): (r: Option<nat>)
      reads this
      ensures r.Some? ==> r.value < |typefaces| && NameMatches(typefaces[r.value].name, name)
      ensures r.Some? ==> forall j :: 0 <= j < r.value ==> !NameMatches(typefaces[j].name, name)
      ensures r.None? ==> forall j :: 0 <= j < |typefaces| ==> !NameMatches(typefaces[j].name, name)
    {
      FindTypeface(typefaces, name)
    }

    /** `get`: the first typeface named `name`, ignoring case; it is the one at
        `get_index(name)`. */
    function Get(name: string): (r: Option<Typeface>)
      reads this
      ensures r.None? <==> GetIndex(name).None?
      ensures r.Some? ==> r.value == typefaces[GetIndex(name).value]
    {
      FirstTypefaceAgrees(typefaces, name);
      FirstTypeface(typefaces, name)
    }

    /** `add`: file `font` under its family, creating the family at the end of
        the list when no name matches; skip it when the family already has its
        variant. Returns the manifest, or None when skipped. */
    method Add(font: InstalledFont) returns (r: Option<Manifest>)
      modifies this, typefaces
      ensures old(Valid()) ==> Valid()
      ensures var found := FindTypeface(old(typefaces), font.family);
        found.None? ==>
          && r == Some(this)
          && |typefaces| == |old(typefaces)| + 1
          && typefaces[..|old(typefaces)|] == old(typefaces)
          && fresh(typefaces[|old(typefaces)|])
          && typefaces[|old(typefaces)|].name == font.family
          && typefaces[|old(typefaces)|].fonts == [font]
      ensures var found := FindTypeface(old(typefaces), font.family);
        found.Some? ==>
          && typefaces == old(typefaces)
          && var before := old(typefaces[found.value].fonts);
          if font.variant in Variants(before) then
            r == None && typefaces[found.value].fonts == before
          else
            r == Some(this) && typefaces[found.value].fonts == before + [font]
      ensures var found := FindTypeface(old(typefaces), font.family);
        forall t :: t in old(typefaces) && (found.None? || t != old(typefaces)[found.value]) ==>
          t.fonts == old(t.fonts)
    {
      var familyName := font.family;
      var typeface := Get(familyName);
      var idx := GetIndex(familyName);
      var target: Typeface;
      if typeface.None? {
        target := new Typeface(familyName);
      } else {
        target := typeface.value;
      }
      var existing := Variants(target.fonts);
      if font.variant in existing {
        return None;
      }
      ghost var fontsBefore := target.fonts;
      target.fonts := target.fonts + [font];
      if old(Valid()) || typeface.None? {
        AppendKeepsUnique(fontsBefore, font);
      }
      if idx.None? {
        typefaces := typefaces + [target];
      } else {
        typefaces := typefaces[idx.value := target];
      }
      return Some(this);
    }

    /** `remove` with a list of variant texts (or None). As written it
        searches the ARGUMENT's fonts and pops from the STORED typeface; this
        model requires the two to be one object whenever the name is found.
        A failed search raises after the pops done so far. */
    method Remove(typeface: Typeface, variants: Option<seq<string>>) returns (r: Result<nat, RemoveError>)
      requires var found := FindTypeface(typefaces, typeface.name);
        found.Some? && variants.Some? ==> typefaces[found.value] == typeface
      modifies this, typefaces
      ensures old(Valid()) ==> Valid()
      ensures var found := FindTypeface(old(typefaces), typeface.name);
        found.None? ==> r == Err(TypefaceNotFound) && typefaces == old(typefaces)
      ensures var found := FindTypeface(old(typefaces), typeface.name);
        found.Some? && variants.None? ==> r == Err(ListNotCallable) && typefaces == old(typefaces)
      ensures var found := FindTypeface(old(typefaces), typeface.name);
        found.Some? && variants.Some? ==>
          var vs := variants.value;
          var before := old(typeface.fonts);
          var matched := MatchCount(before, vs);
          && typeface.fonts == DropMatching(before, vs, if matched < |vs| then matched else |vs|)
          && (r.Ok? <==> |vs| <= matched)
          && (r.Ok? ==> r.value == |vs|)
          && (r.Err? ==> r.error == VariantNotFound && typefaces == old(typefaces))
          && (r.Ok? && typeface.fonts == [] ==>
                typefaces == old(typefaces)[..found.value] + old(typefaces)[found.value + 1..])
          && (r.Ok? && typeface.fonts != [] ==> typefaces == old(typefaces))
      ensures var found := FindTypeface(old(typefaces), typeface.name);
        found.Some? && variants.Some? && old(Valid()) ==>
          var vs := variants.value;
          && (r.Ok? <==> Distinct(vs) && forall v :: v in vs ==> v in VariantSet(old(typeface.fonts)))
          && (r.Ok? ==> typeface.fonts == Without(old(typeface.fonts), vs))
      ensures forall t :: t in old(typefaces) && (variants.None? || t != typeface) ==>
        t.fonts == old(t.fonts)
    {
      var idx := GetIndex(typeface.name);
      if idx.None? {
        return Err(TypefaceNotFound);
      }
      var i := idx.value;
      var data := typefaces[i];
      if variants.None? {
        // the count of fonts is read, then the list itself is called: TypeError
        return Err(ListNotCallable);
      }
      var vs := variants.value;
      ghost var before := data.fonts;
      DropNothing(before, vs);
      var count := 0;
      for k := 0 to |vs|
        invariant count == k
        invariant k <= MatchCount(before, vs)
        invariant data.fonts == DropMatching(before, vs, k)
        invariant forall t :: t in old(typefaces) && t != data ==> t.fonts == old(t.fonts)
        modifies data
      {
        if k < MatchCount(before, vs) {
          DropStepFound(before, vs, k);
        } else {
          DropStepExhausted(before, vs, k);
        }
        // the loop variable is ignored: each round searches for any requested variant
        var fontIdx := FirstMatching(typeface.fonts, vs);
        if fontIdx.None? {
          if old(Valid()) {
            DropKeepsUnique(before, vs, k);
            RemovalSucceedsIff(before, vs);
          }
          return Err(VariantNotFound);
        }
        data.fonts := RemoveAt(data.fonts, fontIdx.value);
        count := count + 1;
      }
      if old(Valid()) {
        DropKeepsUnique(before, vs, |vs|);
        RemovalSucceedsIff(before, vs);
      }
      if data.fonts == [] {
        if old(Valid()) {
          NamesDistinctWithout(typefaces, i);
        }
        typefaces := typefaces[..i] + typefaces[i + 1..];
      } else {
        typefaces := typefaces[i := data];
      }
      return Ok(count);
    }

    /** `remove` without variants as evidently intended: drop the whole
        typeface and return the number of fonts it had. As written, the
        source calls the list instead (see `Remove`). */
    method RemoveFamily(typeface: Typeface) returns (r: Result<nat, RemoveError>)
      modifies this
      ensures old(Valid()) ==> Valid()
      ensures var found := FindTypeface(old(typefaces), typeface.name);
        found.None? ==> r == Err(TypefaceNotFound) && typefaces == old(typefaces)
      ensures var found := FindTypeface(old(typefaces), typeface.name);
        found.Some? ==>
          && r == Ok(|old(typefaces)[found.value].fonts|)
          && typefaces == old(typefaces)[..found.value] + old(typefaces)[found.value + 1..]
      ensures old(Valid()) ==> FindTypeface(typefaces, typeface.name).None?
    {
      var idx := GetIndex(typeface.name);
      if idx.None? {
        return Err(TypefaceNotFound);
      }
      var i := idx.value;
      var count := |typefaces[i].fonts|;
      if Valid() {
        NamesDistinctWithout(typefaces, i);
        NameGoneWithout(typefaces, i, typeface.name);
      }
      typefaces := typefaces[..i] + typefaces[i + 1..];
      return Ok(count);
    }
  }
}
