/** When the order in which a hash map yields the default values matters. */
module ConfigOrder {
  import opened Types
  import opened Model
  import opened NumberText
  import opened ValueText
  import opened Walks
  import opened Simulator
  import opened Config

  type Defaults = map<string, string>

  /** Texts that name the same key carry the same value. */
  predicate NoConflict(d: Dictionary, defaults: Defaults, reals: RealText) {
    forall s, t :: s in defaults && t in defaults && ParseCanonicalKey(s) == ParseCanonicalKey(t) ==>
      DefaultFor(d, s, defaults[s], reals) == DefaultFor(d, t, defaults[t], reals)
  }

  /** Texts that name key k carry the same value. */
  predicate NoConflictAt(d: Dictionary, defaults: Defaults, reals: RealText, k: ObjectKey) {
    forall s, t :: s in defaults && t in defaults && NamedKey(s) == Some(k) == NamedKey(t) ==>
      DefaultFor(d, s, defaults[s], reals) == DefaultFor(d, t, defaults[t], reals)
  }

  function NamedKey(text: string): Option<ObjectKey> {
    ParseCanonicalKey(text)
  }

  lemma ValidDefault(d: Dictionary, before: Dictionary, defaults: Defaults, text: string, reals: RealText)
    requires AllValid(d, defaults, reals) && text in defaults
    requires before.Keys == d.Keys && forall k :: k in d ==> before[k] == d[k].(value := before[k].value)
    ensures DefaultFor(before, text, defaults[text], reals) == DefaultFor(d, text, defaults[text], reals)
    ensures DefaultFor(d, text, defaults[text], reals).Ok?
    ensures var (k, _) := DefaultFor(d, text, defaults[text], reals).value; Some(k) == NamedKey(text) && k in d
  {
    DefaultForByShape(d, before, text, defaults[text], reals);
    assert DefaultFor(d, text, defaults[text], reals).Ok?;
  }

  lemma ValidDefaultsSucceed(d: Dictionary, defaults: Defaults, order: seq<string>, reals: RealText)
    requires AllValid(d, defaults, reals) && forall t :: t in order ==> t in defaults
    ensures AfterDefaults(d, defaults, order, reals).1 == None
  {
    DefaultsSucceedIff(d, defaults, order, reals);
  }

  /** The value of an entry after the defaults is that of the last text naming it. */
  lemma {:induction false} AfterDefaultsAt(d: Dictionary, defaults: Defaults, order: seq<string>, reals: RealText,
                                           k: ObjectKey)
    requires AllValid(d, defaults, reals) && (forall t :: t in order ==> t in defaults) && k in d
    ensures var last := LastWith(order, NamedKey, k);
            if last < 0 then AfterDefaults(d, defaults, order, reals).0[k] == d[k]
            else
              && DefaultFor(d, order[last], defaults[order[last]], reals).Ok?
              && AfterDefaults(d, defaults, order, reals).0[k]
                 == d[k].(value := DefaultFor(d, order[last], defaults[order[last]], reals).value.1)
  {
    if order != [] {
      var front := order[..|order| - 1];
      var before, taken := AfterDefaultsNext(d, defaults, order, reals);
      AfterDefaultsAt(d, defaults, front, reals, k);
      ValidDefaultsSucceed(d, defaults, order, reals);
      ValidDefault(d, d, defaults, order[|order| - 1], reals);
      var last := LastWith(front, NamedKey, k);
      assert last >= 0 ==> front[last] == order[last];
    }
  }

  /** Without conflicts at k, an order's entry at k is the value of any text that names k. */
  lemma EntryWithoutConflict(d: Dictionary, defaults: Defaults, reals: RealText, order: seq<string>, k: ObjectKey,
                             t: string)
    requires AllValid(d, defaults, reals) && NoConflictAt(d, defaults, reals, k)
    requires Enumerates(order, defaults.Keys) && k in d && t in defaults && NamedKey(t) == Some(k)
    ensures DefaultFor(d, t, defaults[t], reals).Ok?
    ensures AfterDefaults(d, defaults, order, reals).0[k]
         == d[k].(value := DefaultFor(d, t, defaults[t], reals).value.1)
  {
    AfterDefaultsAt(d, defaults, order, reals, k);
    assert t in order;
    var last := order[LastWith(order, NamedKey, k)];
    assert last in order;
    assert DefaultFor(d, last, defaults[last], reals) == DefaultFor(d, t, defaults[t], reals);
  }

  lemma SameEntry(d: Dictionary, defaults: Defaults, reals: RealText, a: seq<string>, b: seq<string>, k: ObjectKey)
    requires AllValid(d, defaults, reals) && NoConflictAt(d, defaults, reals, k)
    requires Enumerates(a, defaults.Keys) && Enumerates(b, defaults.Keys) && k in d
    ensures AfterDefaults(d, defaults, a, reals).0[k] == AfterDefaults(d, defaults, b, reals).0[k]
  {
    var i, j := LastWith(a, NamedKey, k), LastWith(b, NamedKey, k);
    if i >= 0 || j >= 0 {
      var t := if i >= 0 then a[i] else b[j];
      assert i >= 0 ==> a[i] in a;
      assert i < 0 ==> b[j] in b;
      EntryWithoutConflict(d, defaults, reals, a, k, t);
      EntryWithoutConflict(d, defaults, reals, b, k, t);
    } else {
      AfterDefaultsAt(d, defaults, a, reals, k);
      AfterDefaultsAt(d, defaults, b, reals, k);
    }
  }

  lemma SameOutcome(d: Dictionary, defaults: Defaults, reals: RealText, a: seq<string>, b: seq<string>)
    requires AllValid(d, defaults, reals) && NoConflict(d, defaults, reals)
    requires Enumerates(a, defaults.Keys) && Enumerates(b, defaults.Keys)
    ensures AfterDefaults(d, defaults, a, reals) == AfterDefaults(d, defaults, b, reals)
  {
    ValidDefaultsSucceed(d, defaults, a, reals);
    ValidDefaultsSucceed(d, defaults, b, reals);
    forall k | k in d
      ensures AfterDefaults(d, defaults, a, reals).0[k] == AfterDefaults(d, defaults, b, reals).0[k]
    {
      SameEntry(d, defaults, reals, a, b, k);
    }
    SamePair(AfterDefaults(d, defaults, a, reals), AfterDefaults(d, defaults, b, reals));
  }

  lemma SamePair(x: (Dictionary, Option<Error>), y: (Dictionary, Option<Error>))
    requires x.0.Keys == y.0.Keys && (forall k :: k in x.0 ==> x.0[k] == y.0[k]) && x.1 == y.1
    ensures x == y
  {
    assert x.0 == y.0;
  }

  lemma LastDefaultWins(d: Dictionary, defaults: Defaults, reals: RealText, order: seq<string>, t: string, k: ObjectKey)
    requires AllValid(d, defaults, reals) && (forall x :: x in order ==> x in defaults) && t in defaults
    requires k in d && NamedKey(t) == Some(k)
    ensures DefaultFor(d, t, defaults[t], reals).Ok?
    ensures AfterDefaults(d, defaults, order + [t], reals).0[k]
         == d[k].(value := DefaultFor(d, t, defaults[t], reals).value.1)
  {
    AfterDefaultsAt(d, defaults, order + [t], reals, k);
    assert LastWith(order + [t], NamedKey, k) == |order|;
  }

  lemma EnumeratesTwoMore(rest: seq<string>, texts: set<string>, s: string, t: string)
    requires s in texts && t in texts && s != t && Enumerates(rest, texts - {s, t})
    ensures Enumerates(rest + [s] + [t], texts)
  {
    EnumeratesVisit(rest, texts, {s, t}, s);
    assert {s, t} - {s} == {t};
    EnumeratesVisit(rest + [s], texts, {t}, t);
    assert texts - ({t} - {t}) == texts;
  }

  lemma {:induction false} SomeOrder(texts: set<string>) returns (order: seq<string>)
    ensures Enumerates(order, texts)
    decreases |texts|
  {
    if texts == {} {
      order := [];
    } else {
      var t :| t in texts;
      var front := SomeOrder(texts - {t});
      order := front + [t];
    }
  }

  /** Two defaults in conflict can be stored in either order, and the later one wins. */
  lemma ConflictShows(d: Dictionary, defaults: Defaults, reals: RealText, s: string, t: string)
    returns (a: seq<string>, b: seq<string>)
    requires AllValid(d, defaults, reals) && s in defaults && t in defaults
    requires ParseCanonicalKey(s) == ParseCanonicalKey(t)
    requires DefaultFor(d, s, defaults[s], reals) != DefaultFor(d, t, defaults[t], reals)
    ensures Enumerates(a, defaults.Keys) && Enumerates(b, defaults.Keys)
    ensures ParseCanonicalKey(s).Some? && ParseCanonicalKey(s).value in d
    ensures var k := ParseCanonicalKey(s).value;
            AfterDefaults(d, defaults, a, reals).0[k] != AfterDefaults(d, defaults, b, reals).0[k]
  {
    var rest := SomeOrder(defaults.Keys - {s, t});
    a, b := rest + [s] + [t], rest + [t] + [s];
    EnumeratesTwoMore(rest, defaults.Keys, s, t);
    assert {s, t} == {t, s};
    EnumeratesTwoMore(rest, defaults.Keys, t, s);
    assert DefaultFor(d, s, defaults[s], reals).Ok?;
    var k := ParseCanonicalKey(s).value;
    LastDefaultWins(d, defaults, reals, rest + [s], t, k);
    LastDefaultWins(d, defaults, reals, rest + [t], s, k);
  }

  ghost predicate OrderFreeDefaults(d: Dictionary, defaults: Defaults, reals: RealText) {
    forall a, b :: Enumerates(a, defaults.Keys) && Enumerates(b, defaults.Keys) ==>
      AfterDefaults(d, defaults, a, reals) == AfterDefaults(d, defaults, b, reals)
  }

  /** Valid defaults give one result whatever the iteration order exactly when no two of them conflict. */
  lemma DefaultsOrderFreeIff(d: Dictionary, defaults: Defaults, reals: RealText)
    requires AllValid(d, defaults, reals)
    ensures OrderFreeDefaults(d, defaults, reals) <==> NoConflict(d, defaults, reals)
  {
    if NoConflict(d, defaults, reals) {
      forall a, b | Enumerates(a, defaults.Keys) && Enumerates(b, defaults.Keys)
        ensures AfterDefaults(d, defaults, a, reals) == AfterDefaults(d, defaults, b, reals)
      {
        SameOutcome(d, defaults, reals, a, b);
      }
    } else {
      var s, t :| s in defaults && t in defaults && ParseCanonicalKey(s) == ParseCanonicalKey(t)
                  && DefaultFor(d, s, defaults[s], reals) != DefaultFor(d, t, defaults[t], reals);
      var a, b := ConflictShows(d, defaults, reals, s, t);
    }
  }

  // ----- The whole configuration -----

  /** The dictionary a configuration gives when its defaults are stored in the given order; None when it is refused. */
  ghost function Outcome(d: Dictionary, config: SimulatorConfig, reals: RealText, order: seq<string>)
    : Option<Dictionary>
    requires forall t :: t in order ==> t in config.odDefaults
  {
    var (defaulted, error) := AfterDefaults(d, config.odDefaults, order, reals);
    if error.Some? then None else Some(Configured(defaulted, config))
  }

  /** Two texts name one key, and no override replaces the value stored there. */
  predicate BothVisible(config: SimulatorConfig, s: string, t: string) {
    && ParseCanonicalKey(s) == ParseCanonicalKey(t)
    && ParseCanonicalKey(s).Some? && Effective(config, ParseCanonicalKey(s).value).None?
  }

  /** Texts that name the same key carry the same value, unless an override replaces it anyway. */
  predicate NoVisibleConflict(d: Dictionary, config: SimulatorConfig, reals: RealText) {
    forall s, t :: s in config.odDefaults && t in config.odDefaults && BothVisible(config, s, t) ==>
      DefaultFor(d, s, config.odDefaults[s], reals) == DefaultFor(d, t, config.odDefaults[t], reals)
  }

  ghost predicate OrderFree(d: Dictionary, config: SimulatorConfig, reals: RealText) {
    forall a, b :: Enumerates(a, config.odDefaults.Keys) && Enumerates(b, config.odDefaults.Keys) ==>
      Outcome(d, config, reals, a) == Outcome(d, config, reals, b)
  }

  /** An overridden value hides whatever was stored below it. */
  lemma ConfiguredSame(d: Dictionary, x: Dictionary, y: Dictionary, config: SimulatorConfig)
    requires x.Keys == d.Keys && (forall k :: k in d ==> x[k] == d[k].(value := x[k].value))
    requires y.Keys == d.Keys && (forall k :: k in d ==> y[k] == d[k].(value := y[k].value))
    requires forall k :: k in d && Effective(config, k).None? ==> x[k] == y[k]
    ensures Configured(x, config) == Configured(y, config)
  {
    forall k
      ensures match Effective(config, k)
              case Some(v) => k in Configured(x, config) && Configured(x, config)[k] == Overridden(y, k, v)
              case None =>
                (k in Configured(x, config) <==> k in y) && (k in y ==> Configured(x, config)[k] == y[k])
    {
      assert Effective(config, k).Some? || Effective(config, k).None?;
    }
    ConfiguredUnique(y, config, Configured(x, config), Configured(y, config));
  }

  lemma VisibleAt(d: Dictionary, config: SimulatorConfig, reals: RealText, k: ObjectKey)
    requires NoVisibleConflict(d, config, reals) && Effective(config, k).None?
    ensures NoConflictAt(d, config.odDefaults, reals, k)
  {
    forall s, t | s in config.odDefaults && t in config.odDefaults && NamedKey(s) == Some(k) == NamedKey(t)
      ensures DefaultFor(d, s, config.odDefaults[s], reals) == DefaultFor(d, t, config.odDefaults[t], reals)
    {
      assert BothVisible(config, s, t);
    }
  }

  lemma SameConfigured(d: Dictionary, config: SimulatorConfig, reals: RealText, a: seq<string>, b: seq<string>)
    requires AllValid(d, config.odDefaults, reals) && NoVisibleConflict(d, config, reals)
    requires Enumerates(a, config.odDefaults.Keys) && Enumerates(b, config.odDefaults.Keys)
    ensures Outcome(d, config, reals, a) == Outcome(d, config, reals, b)
  {
    ValidDefaultsSucceed(d, config.odDefaults, a, reals);
    ValidDefaultsSucceed(d, config.odDefaults, b, reals);
    forall k | k in d && Effective(config, k).None?
      ensures AfterDefaults(d, config.odDefaults, a, reals).0[k] == AfterDefaults(d, config.odDefaults, b, reals).0[k]
    {
      VisibleAt(d, config, reals, k);
      SameEntry(d, config.odDefaults, reals, a, b, k);
    }
    ConfiguredSame(d, AfterDefaults(d, config.odDefaults, a, reals).0,
                   AfterDefaults(d, config.odDefaults, b, reals).0, config);
  }

  /** A conflict no override covers shows in the configured dictionary. */
  lemma VisibleConflictShows(d: Dictionary, config: SimulatorConfig, reals: RealText, s: string, t: string)
    returns (a: seq<string>, b: seq<string>)
    requires AllValid(d, config.odDefaults, reals) && s in config.odDefaults && t in config.odDefaults
    requires BothVisible(config, s, t)
    requires DefaultFor(d, s, config.odDefaults[s], reals) != DefaultFor(d, t, config.odDefaults[t], reals)
    ensures Enumerates(a, config.odDefaults.Keys) && Enumerates(b, config.odDefaults.Keys)
    ensures Outcome(d, config, reals, a) != Outcome(d, config, reals, b)
  {
    var k := ParseCanonicalKey(s).value;
    a, b := ConflictShows(d, config.odDefaults, reals, s, t);
    ValidDefaultsSucceed(d, config.odDefaults, a, reals);
    ValidDefaultsSucceed(d, config.odDefaults, b, reals);
    ConfiguredDiffer(AfterDefaults(d, config.odDefaults, a, reals).0,
                     AfterDefaults(d, config.odDefaults, b, reals).0, config, k);
  }

  lemma ConfiguredDiffer(x: Dictionary, y: Dictionary, config: SimulatorConfig, k: ObjectKey)
    requires Effective(config, k).None? && k in x && k in y && x[k] != y[k]
    ensures Configured(x, config) != Configured(y, config)
  {
    assert Configured(x, config)[k] == x[k] && Configured(y, config)[k] == y[k];
  }

  /**
   The outcome of a configuration, a dictionary or a refusal, is the same in every iteration order
   exactly when some default is refused or no two defaults conflict on a key no override replaces.
   */
  lemma ConfigurationOrderFreeIff(d: Dictionary, config: SimulatorConfig, reals: RealText)
    ensures OrderFree(d, config, reals) <==>
            (AllValid(d, config.odDefaults, reals) ==> NoVisibleConflict(d, config, reals))
  {
    if !AllValid(d, config.odDefaults, reals) {
      RefusedInEveryOrder(d, config, reals);
    } else if NoVisibleConflict(d, config, reals) {
      forall a, b | Enumerates(a, config.odDefaults.Keys) && Enumerates(b, config.odDefaults.Keys)
        ensures Outcome(d, config, reals, a) == Outcome(d, config, reals, b)
      {
        SameConfigured(d, config, reals, a, b);
      }
    } else {
      var s, t :| s in config.odDefaults && t in config.odDefaults && BothVisible(config, s, t)
                  && DefaultFor(d, s, config.odDefaults[s], reals) != DefaultFor(d, t, config.odDefaults[t], reals);
      var a, b := VisibleConflictShows(d, config, reals, s, t);
    }
  }

  lemma RefusedInEveryOrder(d: Dictionary, config: SimulatorConfig, reals: RealText)
    requires !AllValid(d, config.odDefaults, reals)
    ensures forall a :: Enumerates(a, config.odDefaults.Keys) ==> Outcome(d, config, reals, a) == None
  {
    forall a | Enumerates(a, config.odDefaults.Keys)
      ensures Outcome(d, config, reals, a) == None
    {
      DefaultsSucceedIff(d, config.odDefaults, a, reals);
    }
  }

  // ----- Two spellings of one key -----

  function DecimalSpelling(k: ObjectKey): string {
    ToDecimal(k.index) + ":" + ToDecimal(k.subIndex)
  }

  /** Every key has at least two spellings: 0x2000:0 and 8192:0 name the same entry. */
  lemma TwoSpellings(k: ObjectKey)
    ensures ParseCanonicalKey(CanonicalKey(k)) == Some(k) == ParseCanonicalKey(DecimalSpelling(k))
    ensures CanonicalKey(k) != DecimalSpelling(k)
  {
    CanonicalKeyRoundTrip(k);
    var left, right := ToDecimal(k.index), ToDecimal(k.subIndex);
    ParsePrintedU64(k.index);
    ParsePrintedU64(k.subIndex);
    NoColon(left, 10);
    ParseSplitKey(left, right, k);
    SpellingsDiffer(left, right, PadZeros(ToBase(k.index, 16), 4) + ":" + ToDecimal(k.subIndex));
    Associative("0x", PadZeros(ToBase(k.index, 16), 4), ":");
    Associative("0x", PadZeros(ToBase(k.index, 16), 4) + ":", ToDecimal(k.subIndex));
  }

  lemma SpellingsDiffer(left: string, right: string, hex: string)
    requires left != [] && AllDigits(left, 10)
    ensures "0x" + hex != left + ":" + right
  {
    NoX(left);
    assert ("0x" + hex)[1] == 'x';
    assert (left + ":" + right)[1] == if |left| > 1 then left[1] else ':';
  }

  lemma NoX(s: string)
    requires AllDigits(s, 10)
    ensures forall i :: 0 <= i < |s| ==> s[i] != 'x'
  {
    forall i | 0 <= i < |s|
      ensures s[i] != 'x'
    {
      assert IsDigit(s[i], 10);
    }
  }

  /** Two spellings with different texts for one string entry: the iteration order decides what the node starts with. */
  lemma SpellingsConflict(k: ObjectKey, a: string, b: string, reals: RealText)
    requires a != b
    ensures var d := map[k := OdEntry(k, "", VisibleString, ReadWrite, Empty)];
            var defaults := map[CanonicalKey(k) := a, DecimalSpelling(k) := b];
            AllValid(d, defaults, reals) && !OrderFree(d, SimulatorConfig(defaults, map[], map[]), reals)
  {
    TwoSpellings(k);
    var d := map[k := OdEntry(k, "", VisibleString, ReadWrite, Empty)];
    var defaults := map[CanonicalKey(k) := a, DecimalSpelling(k) := b];
    ConflictingTexts(d, k, defaults, CanonicalKey(k), DecimalSpelling(k), reals);
  }

  lemma TextDefault(d: Dictionary, k: ObjectKey, keyText: string, text: string, reals: RealText)
    requires k in d && d[k].dataType.VisibleString? && ParseCanonicalKey(keyText) == Some(k)
    ensures DefaultFor(d, keyText, text, reals) == Ok((k, Text(text)))
  {
  }

  lemma ConflictingTexts(d: Dictionary, k: ObjectKey, defaults: Defaults, s: string, t: string, reals: RealText)
    requires k in d && d[k].dataType.VisibleString?
    requires defaults.Keys == {s, t} && defaults[s] != defaults[t]
    requires ParseCanonicalKey(s) == Some(k) == ParseCanonicalKey(t)
    ensures AllValid(d, defaults, reals) && !OrderFree(d, SimulatorConfig(defaults, map[], map[]), reals)
  {
    var config := SimulatorConfig(defaults, map[], map[]);
    TextDefault(d, k, s, defaults[s], reals);
    TextDefault(d, k, t, defaults[t], reals);
    assert BothVisible(config, s, t);
    ConfigurationOrderFreeIff(d, config, reals);
  }
}
