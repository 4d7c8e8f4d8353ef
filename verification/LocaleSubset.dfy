/**
 The subset of a localization catalog that the main process ships
 (config/build-plugins/main-locale-subset.ts).
 */
module LocaleSubset {
  import opened Common

  /** Object.entries of a catalog: texts and nested catalogs, in order. */
  datatype Entry = Text(name: string, text: string) | Nested(name: string, entries: seq<Entry>)
  type Catalog = seq<Entry>

  datatype Evidence = Evidence(literals: set<string>, dynamicPrefixes: set<string>)

  const PLURAL_SUFFIXES: seq<string> := ["_zero", "_one", "_two", "_few", "_many", "_other"]

  predicate EndsWith(key: string, suffix: string) { |suffix| <= |key| && key[|key| - |suffix|..] == suffix }

  function Strip(key: string, suffixes: seq<string>): string {
    if suffixes == [] then key
    else if EndsWith(key, suffixes[0]) then key[..|key| - |suffixes[0]|]
    else Strip(key, suffixes[1..])
  }

  function StripPlural(key: string): string { Strip(key, PLURAL_SUFFIXES) }

  /** Of a key in a plural form the base is left, of any other all of it. */
  lemma {:induction false} PluralIsStripped(base: string, key: string)
    ensures forall i :: 0 <= i < |PLURAL_SUFFIXES| ==> StripPlural(base + PLURAL_SUFFIXES[i]) == base
    ensures StripPlural(key) == key
            || exists i :: 0 <= i < |PLURAL_SUFFIXES| && key == StripPlural(key) + PLURAL_SUFFIXES[i]
    ensures StripPlural(key) == key <==> forall i :: 0 <= i < |PLURAL_SUFFIXES| ==> !EndsWith(key, PLURAL_SUFFIXES[i])
  {
    forall i | 0 <= i < |PLURAL_SUFFIXES| ensures StripPlural(base + PLURAL_SUFFIXES[i]) == base {
      LastLetters(base + PLURAL_SUFFIXES[i], i);
      SuffixGoes(base, i, 0);
    }
    StripIs(key, 0);
  }

  // Of two suffixes at most one ends a key: their last letters, or those before, differ.
  lemma LastLetters(key: string, i: nat)
    requires i < |PLURAL_SUFFIXES| && EndsWith(key, PLURAL_SUFFIXES[i])
    ensures forall j :: 0 <= j < |PLURAL_SUFFIXES| && EndsWith(key, PLURAL_SUFFIXES[j]) ==> j == i
  {
    forall j | 0 <= j < |PLURAL_SUFFIXES| && EndsWith(key, PLURAL_SUFFIXES[j]) ensures j == i {
      var a, b := PLURAL_SUFFIXES[i], PLURAL_SUFFIXES[j];
      assert key[|key| - 1] == a[|a| - 1] == b[|b| - 1];
      assert key[|key| - 2] == a[|a| - 2] == b[|b| - 2];
      assert key[|key| - 3] == a[|a| - 3] == b[|b| - 3];
    }
  }

  lemma {:induction false} SuffixGoes(base: string, i: nat, from: nat)
    requires from <= i < |PLURAL_SUFFIXES|
    requires var key := base + PLURAL_SUFFIXES[i];
             forall j :: 0 <= j < |PLURAL_SUFFIXES| && EndsWith(key, PLURAL_SUFFIXES[j]) ==> j == i
    ensures Strip(base + PLURAL_SUFFIXES[i], PLURAL_SUFFIXES[from..]) == base
    decreases i - from
  {
    var key, suffixes := base + PLURAL_SUFFIXES[i], PLURAL_SUFFIXES[from..];
    assert suffixes[0] == PLURAL_SUFFIXES[from] && suffixes[1..] == PLURAL_SUFFIXES[from + 1..];
    if from < i {
      SuffixGoes(base, i, from + 1);
    } else {
      assert EndsWith(key, suffixes[0]);
    }
  }

  lemma {:induction false} StripIs(key: string, from: nat)
    requires from <= |PLURAL_SUFFIXES|
    ensures var base := Strip(key, PLURAL_SUFFIXES[from..]);
            if forall i :: from <= i < |PLURAL_SUFFIXES| ==> !EndsWith(key, PLURAL_SUFFIXES[i]) then base == key
            else exists i :: 0 <= i < |PLURAL_SUFFIXES| && key == base + PLURAL_SUFFIXES[i]
    decreases |PLURAL_SUFFIXES| - from
  {
    if from < |PLURAL_SUFFIXES| {
      var suffixes := PLURAL_SUFFIXES[from..];
      assert suffixes[0] == PLURAL_SUFFIXES[from] && suffixes[1..] == PLURAL_SUFFIXES[from + 1..];
      if EndsWith(key, suffixes[0]) {
        assert key == Strip(key, suffixes) + PLURAL_SUFFIXES[from];
      } else {
        StripIs(key, from + 1);
      }
    }
  }

  predicate IsNamed(key: string, evidence: Evidence) {
    StripPlural(key) in evidence.literals || exists prefix :: prefix in evidence.dynamicPrefixes && prefix <= key
  }

  function StripPluralLiterals(evidence: Evidence): Evidence {
    evidence.(literals := set key | key in evidence.literals :: StripPlural(key))
  }

  function KeyOf(prefix: string, name: string): string { if prefix == "" then name else prefix + "." + name }

  function PickNamed(catalog: Catalog, evidence: Evidence, prefix: string): Catalog
    decreases catalog, 0
  {
    if catalog == [] then [] else PickOne(catalog[0], evidence, prefix) + PickNamed(catalog[1..], evidence, prefix)
  }

  // What one entry leaves in the subset.
  function PickOne(entry: Entry, evidence: Evidence, prefix: string): Catalog
    decreases entry, 1
  {
    var key := KeyOf(prefix, entry.name);
    match entry
    case Text(_, _) => if IsNamed(key, evidence) then [entry] else []
    case Nested(name, entries) =>
      var child := PickNamed(entries, evidence, key);
      if child != [] then [Nested(name, child)] else []
  }

  lemma PickStep(catalog: Catalog, i: nat, evidence: Evidence, prefix: string)
    requires i < |catalog|
    ensures PickNamed(catalog[i..], evidence, prefix) ==
              PickOne(catalog[i], evidence, prefix) + PickNamed(catalog[i + 1..], evidence, prefix)
  {
    assert catalog[i..][0] == catalog[i] && catalog[i..][1..] == catalog[i + 1..];
  }

  method PickNamedEntries(catalog: Catalog, evidence: Evidence, prefix: string) returns (picked: Catalog)
    ensures picked == PickNamed(catalog, evidence, prefix)
    decreases catalog
  {
    hide PickNamed, IsNamed;
    picked := [];
    for i := 0 to |catalog|
      invariant picked + PickNamed(catalog[i..], evidence, prefix) == PickNamed(catalog, evidence, prefix)
    {
      PickStep(catalog, i, evidence, prefix);
      ghost var before := picked;
      var key := KeyOf(prefix, catalog[i].name);
      match catalog[i] {
        case Text(_, _) =>
          if IsNamed(key, evidence) {
            picked := picked + [catalog[i]];
          }
        case Nested(name, entries) =>
          var child := PickNamedEntries(entries, evidence, key);
          if |child| > 0 {
            picked := picked + [Nested(name, child)];
          }
      }
      assert picked == before + PickOne(catalog[i], evidence, prefix);
    }
    PickNothing(evidence, prefix);
    assert catalog[|catalog|..] == [];
  }

  lemma PickNothing(evidence: Evidence, prefix: string)
    ensures PickNamed([], evidence, prefix) == []
  {
  }

  /** A text with its full key. */
  datatype Item = Item(key: string, text: string)

  function ItemsOfOne(entry: Entry, prefix: string): seq<Item>
    decreases entry, 1
  {
    var key := KeyOf(prefix, entry.name);
    match entry
    case Text(_, text) => [Item(key, text)]
    case Nested(_, entries) => Items(entries, key)
  }

  function Items(catalog: Catalog, prefix: string): seq<Item>
    decreases catalog, 0
  {
    if catalog == [] then [] else ItemsOfOne(catalog[0], prefix) + Items(catalog[1..], prefix)
  }

  function CatalogKeys(catalog: Catalog, prefix: string): seq<string>
    decreases catalog
  {
    if catalog == [] then []
    else
      var key := KeyOf(prefix, catalog[0].name);
      (match catalog[0]
       case Text(_, _) => [key]
       case Nested(_, entries) => CatalogKeys(entries, key))
      + CatalogKeys(catalog[1..], prefix)
  }

  // No nested catalog, at any depth, is empty.
  ghost predicate NoEmptySubtree(catalog: Catalog)
    decreases catalog
  {
    catalog != [] ==>
      && (catalog[0].Nested? ==> catalog[0].entries != [] && NoEmptySubtree(catalog[0].entries))
      && NoEmptySubtree(catalog[1..])
  }

  function Named(evidence: Evidence): Item -> bool { (item: Item) => IsNamed(item.key, evidence) }

  function NamedKey(evidence: Evidence): string -> bool { (key: string) => IsNamed(key, evidence) }

  /** The subset holds exactly the named keys, in order and with their texts, and no empty subtree. */
  lemma {:induction false} PicksExactlyNamed(catalog: Catalog, evidence: Evidence, prefix: string)
    ensures Items(PickNamed(catalog, evidence, prefix), prefix) == Filter(Named(evidence), Items(catalog, prefix))
    ensures NoEmptySubtree(PickNamed(catalog, evidence, prefix))
    decreases catalog, 0
  {
    if catalog != [] {
      PicksExactlyNamed(catalog[1..], evidence, prefix);
      PicksOneExactly(catalog[0], evidence, prefix);
      var one, rest := PickOne(catalog[0], evidence, prefix), PickNamed(catalog[1..], evidence, prefix);
      FilterConcat(Named(evidence), ItemsOfOne(catalog[0], prefix), Items(catalog[1..], prefix));
      hide Filter, IsNamed, ItemsOfOne, PickOne;
      if one != [] {
        assert (one + rest)[0] == one[0] && (one + rest)[1..] == rest && one[1..] == [];
      } else {
        assert one + rest == rest;
      }
    }
  }

  lemma {:induction false} PicksOneExactly(entry: Entry, evidence: Evidence, prefix: string)
    ensures var one := PickOne(entry, evidence, prefix);
            && |one| <= 1
            && (if one == [] then [] else ItemsOfOne(one[0], prefix)) ==
                  Filter(Named(evidence), ItemsOfOne(entry, prefix))
            && (one != [] && one[0].Nested? ==> one[0].entries != [] && NoEmptySubtree(one[0].entries))
    decreases entry, 1
  {
    var key := KeyOf(prefix, entry.name);
    match entry
    case Text(_, text) =>
      assert Filter(Named(evidence), [Item(key, text)])
          == (if IsNamed(key, evidence) then [Item(key, text)] else []) + Filter(Named(evidence), []);
    case Nested(name, entries) =>
      PicksExactlyNamed(entries, evidence, key);
  }

  function KeysOf(items: seq<Item>): seq<string> {
    seq(|items|, i requires 0 <= i < |items| => items[i].key)
  }

  lemma KeysOfConcat(a: seq<Item>, b: seq<Item>)
    ensures KeysOf(a + b) == KeysOf(a) + KeysOf(b)
  {
  }

  lemma OneKey(key: string, text: string)
    ensures KeysOf([Item(key, text)]) == [key]
  {
  }

  lemma {:induction false} KeysOfItems(catalog: Catalog, prefix: string)
    ensures CatalogKeys(catalog, prefix) == KeysOf(Items(catalog, prefix))
    decreases catalog
  {
    if catalog != [] {
      hide KeyOf, KeysOf;
      KeysOfItems(catalog[1..], prefix);
      KeysOfConcat(ItemsOfOne(catalog[0], prefix), Items(catalog[1..], prefix));
      if catalog[0].Text? { OneKey(KeyOf(prefix, catalog[0].name), catalog[0].text); }
      if catalog[0].Nested? { KeysOfItems(catalog[0].entries, KeyOf(prefix, catalog[0].name)); }
    }
  }

  lemma {:induction false} FilterKeys(items: seq<Item>, evidence: Evidence)
    ensures KeysOf(Filter(Named(evidence), items)) == Filter(NamedKey(evidence), KeysOf(items))
  {
    if items != [] {
      FilterKeys(items[1..], evidence);
      assert KeysOf(items)[1..] == KeysOf(items[1..]);
    }
  }

  lemma SubsetKeys(catalog: Catalog, evidence: Evidence, prefix: string)
    ensures CatalogKeys(PickNamed(catalog, evidence, prefix), prefix)
         == Filter(NamedKey(evidence), CatalogKeys(catalog, prefix))
  {
    PicksExactlyNamed(catalog, evidence, prefix);
    KeysOfItems(catalog, prefix);
    KeysOfItems(PickNamed(catalog, evidence, prefix), prefix);
    FilterKeys(Items(catalog, prefix), evidence);
  }

  /** Picking again from the subset changes nothing. */
  lemma {:induction false} SubsetIsStable(catalog: Catalog, evidence: Evidence, prefix: string)
    ensures var once := PickNamed(catalog, evidence, prefix); PickNamed(once, evidence, prefix) == once
    decreases catalog, 0
  {
    if catalog != [] {
      hide IsNamed;
      var one, rest := PickOne(catalog[0], evidence, prefix), PickNamed(catalog[1..], evidence, prefix);
      OneIsStable(catalog[0], evidence, prefix);
      SubsetIsStable(catalog[1..], evidence, prefix);
      if one == [] {
        assert one + rest == rest;
      } else {
        assert (one + rest)[0] == one[0] && (one + rest)[1..] == rest && one == [one[0]];
      }
    }
  }

  lemma {:induction false} OneIsStable(entry: Entry, evidence: Evidence, prefix: string)
    ensures var one := PickOne(entry, evidence, prefix);
            |one| <= 1 && (one != [] ==> PickOne(one[0], evidence, prefix) == one)
    decreases entry, 1
  {
    if entry.Nested? {
      SubsetIsStable(entry.entries, evidence, KeyOf(prefix, entry.name));
    }
  }

  /** The keys buildEnd complains about: named by bundled modules outside the scanned roots, not shipped. */
  function DroppedKeys(english: Catalog, outside: Evidence, shipped: Evidence): seq<string> {
    var named := StripPluralLiterals(outside);
    Filter((key: string) => IsNamed(key, named) && !IsNamed(key, shipped), CatalogKeys(english, ""))
  }

  /** buildEnd passes exactly when every English key that an outside module names is in the shipped subset. */
  lemma BuildEndIsExact(english: Catalog, outside: Evidence, shipped: Evidence)
    ensures DroppedKeys(english, outside, shipped) == []
       <==> forall key :: key in CatalogKeys(english, "") && IsNamed(key, StripPluralLiterals(outside))
                          ==> key in CatalogKeys(PickNamed(english, shipped, ""), "")
  {
    var keys := CatalogKeys(english, "");
    var drops := (key: string) => IsNamed(key, StripPluralLiterals(outside)) && !IsNamed(key, shipped);
    SubsetKeys(english, shipped, "");
    forall key
      ensures key in CatalogKeys(PickNamed(english, shipped, ""), "") <==> key in keys && IsNamed(key, shipped)
    {
      FilterIs(NamedKey(shipped), keys, key);
    }
    if DroppedKeys(english, outside, shipped) == [] {
      forall key | key in keys ensures !drops(key) {
        FilterIs(drops, keys, key);
      }
    } else {
      var key := DroppedKeys(english, outside, shipped)[0];
      FilterIs(drops, keys, key);
    }
  }
}
