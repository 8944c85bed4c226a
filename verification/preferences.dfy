/** The preference store: a JSON object persisted by `electron-store`,
    created with a fixed table of defaults. Every key of the table except
    the AI API key has a default; setting a key writes through at once, so
    a batch of writes that fails half-way keeps the writes made before the
    failure. */
module Preferences {
  import opened Wrappers

  /** The keys of `UserPreferences`. */
  datatype PrefKey =
    | Theme | FontSize | ZoomLevel
    | DefaultSearchEngine | HomePage | ShowBookmarksBar | OpenNewTabsInBackground
    | ClearHistoryOnExit | ClearCookiesOnExit | DoNotTrack
    | DownloadPath | AskDownloadLocation
    | HardwareAcceleration | AutoplayMedia | BlockPopups
    | PerplexityApiKey | AiModel

  /** A stored JSON value. Numbers are kept as given; nothing computes with them. */
  datatype PrefValue = Text(text: string) | Number(number: real) | Flag(flag: bool)

  /** The stored object: the keys that currently have a value. */
  type Prefs = map<PrefKey, PrefValue>

  /** The documented default of a key; the AI API key has none. */
  function Default(k: PrefKey): Option<PrefValue> {
    match k
    case Theme => Some(Text("system"))
    case FontSize => Some(Number(14.0))
    case ZoomLevel => Some(Number(1.0))
    case DefaultSearchEngine => Some(Text("https://www.google.com/search?q="))
    case HomePage => Some(Text(""))
    case ShowBookmarksBar => Some(Flag(true))
    case OpenNewTabsInBackground => Some(Flag(false))
    case ClearHistoryOnExit => Some(Flag(false))
    case ClearCookiesOnExit => Some(Flag(false))
    case DoNotTrack => Some(Flag(true))
    case DownloadPath => Some(Text(""))
    case AskDownloadLocation => Some(Flag(true))
    case HardwareAcceleration => Some(Flag(true))
    case AutoplayMedia => Some(Flag(true))
    case BlockPopups => Some(Flag(true))
    case PerplexityApiKey => None
    case AiModel => Some(Text("llama-3.1-sonar-small-128k-online"))
  }

  /** The `defaultPreferences` object, written out key by key. */
  function Defaults(): (r: Prefs) {
    map[
      Theme := Text("system"),
      FontSize := Number(14.0),
      ZoomLevel := Number(1.0),
      DefaultSearchEngine := Text("https://www.google.com/search?q="),
      HomePage := Text(""),
      ShowBookmarksBar := Flag(true),
      OpenNewTabsInBackground := Flag(false),
      ClearHistoryOnExit := Flag(false),
      ClearCookiesOnExit := Flag(false),
      DoNotTrack := Flag(true),
      DownloadPath := Text(""),
      AskDownloadLocation := Flag(true),
      HardwareAcceleration := Flag(true),
      AutoplayMedia := Flag(true),
      BlockPopups := Flag(true),
      AiModel := Text("llama-3.1-sonar-small-128k-online")
    ]
  }

  /** The defaults object holds exactly the keys that have a default, each
      with its documented value. */
  lemma DefaultsAgree(k: PrefKey)
    ensures k in Defaults() <==> Default(k).Some?
    ensures k in Defaults() ==> Defaults()[k] == Default(k).value
  {
    match k
    case PerplexityApiKey =>
    case _ =>
  }

  /** `get(key)`: the stored value, or undefined when the key has none. */
  function Get(p: Prefs, k: PrefKey): (r: Option<PrefValue>)
    ensures r.Some? <==> k in p
    ensures r.Some? ==> r.value == p[k]
  {
    if k in p then Some(p[k]) else None
  }

  /** Opening the store over the persisted file: the defaults, overridden
      by every key the file holds. */
  function Open(persisted: Prefs): (r: Prefs)
    ensures forall k :: Get(r, k) == if k in persisted then Some(persisted[k]) else Default(k)
  {
    var r := Defaults() + persisted;
    forall k ensures Get(r, k) == if k in persisted then Some(persisted[k]) else Default(k) {
      DefaultsAgree(k);
    }
    r
  }

  /** With nothing persisted every key reads as its default, and the AI API
      key reads as undefined. */
  lemma FreshStoreHoldsDefaults()
    ensures Open(map[]) == Defaults()
    ensures forall k :: Get(Open(map[]), k) == Default(k)
    ensures Get(Open(map[]), Theme) == Some(Text("system"))
    ensures Get(Open(map[]), FontSize) == Some(Number(14.0))
    ensures Get(Open(map[]), ShowBookmarksBar) == Some(Flag(true))
    ensures Get(Open(map[]), DoNotTrack) == Some(Flag(true))
    ensures Get(Open(map[]), PerplexityApiKey) == None
  {
    assert Open(map[]) == Defaults() + map[];
    assert Defaults() + map[] == Defaults();
  }

  /** `set(key, value)`: `value` undefined is rejected (the store demands a
      delete for that) and nothing changes; otherwise the key is overwritten. */
  function Set(p: Prefs, k: PrefKey, v: Option<PrefValue>): (r: Result<Prefs, StoreError>)
    ensures r.Err? <==> v.None?
    ensures r.Err? ==> r.error == UndefinedValue
    ensures r.Ok? ==> Get(r.value, k) == v
    ensures r.Ok? ==> forall j :: j != k ==> Get(r.value, j) == Get(p, j)
  {
    if v.None? then Err(UndefinedValue) else Ok(p[k := v.value])
  }

  /** Setting a key twice keeps the second value. */
  lemma SetOverwrites(p: Prefs, k: PrefKey, v: PrefValue, w: PrefValue)
    ensures Set(Set(p, k, Some(v)).value, k, Some(w)) == Set(p, k, Some(w))
  {
    assert p[k := v][k := w] == p[k := w];
  }

  /** Writes to different keys commute. */
  lemma SetCommutes(p: Prefs, j: PrefKey, v: PrefValue, k: PrefKey, w: PrefValue)
    requires j != k
    ensures Set(Set(p, j, Some(v)).value, k, Some(w)) == Set(Set(p, k, Some(w)).value, j, Some(v))
  {
    assert p[j := v][k := w] == p[k := w][j := v];
  }

  /** `getAll()`: the whole stored object. */
  function GetAll(p: Prefs): (r: Prefs)
    ensures forall k :: Get(p, k) == (if k in r then Some(r[k]) else None)
  {
    p
  }

  /** One own property of the object passed to `setAll`, in property order;
      its value may be undefined. */
  datatype Entry = Entry(key: PrefKey, value: Option<PrefValue>)

  /** Some entry names `k`. */
  predicate Assigned(es: seq<Entry>, k: PrefKey) {
    exists i :: 0 <= i < |es| && es[i].key == k
  }

  /** The value of the last entry naming `k`. */
  function LastValue(es: seq<Entry>, k: PrefKey): (r: Option<PrefValue>)
    requires Assigned(es, k)
    decreases |es|
  {
    var last := es[|es| - 1];
    if last.key == k then last.value
    else
      assert Assigned(es[..|es| - 1], k) by {
        var i :| 0 <= i < |es| && es[i].key == k;
        assert es[..|es| - 1][i].key == k;
      }
      LastValue(es[..|es| - 1], k)
  }

  /** Every entry carries a value. */
  predicate AllDefined(es: seq<Entry>) {
    forall i :: 0 <= i < |es| ==> es[i].value.Some?
  }

  /** The index of the first entry without a value, `|es|` if there is none. */
  function FirstUndefined(es: seq<Entry>): (r: nat)
    ensures r <= |es|
    ensures AllDefined(es[..r])
    ensures r < |es| <==> !AllDefined(es)
    ensures r < |es| ==> es[r].value.None?
    decreases |es|
  {
    if es == [] then 0
    else if es[0].value.None? then 0
    else
      var n := FirstUndefined(es[1..]);
      assert forall i :: 0 < i < |es| ==> es[i] == es[1..][i - 1];
      n + 1
  }

  /** The outcome of a batch of writes: the store after it, and the error
      that stopped it, if any. */
  datatype Applied = Applied(prefs: Prefs, error: Option<StoreError>)

  /** `setAll(preferences)`: one `set` per entry, in order, stopping at the
      first rejected one; the writes before it stay. */
  function SetAll(p: Prefs, es: seq<Entry>): (r: Applied)
    ensures r.error.None? <==> AllDefined(es)
    ensures r.error.Some? ==> r.error.value == UndefinedValue
    ensures forall k :: !Assigned(es, k) ==> Get(r.prefs, k) == Get(p, k)
    decreases |es|
  {
    if es == [] then Applied(p, None)
    else
      match Set(p, es[0].key, es[0].value)
      case Err(e) => Applied(p, Some(e))
      case Ok(q) =>
        var r := SetAll(q, es[1..]);
        assert forall i :: 0 < i < |es| ==> es[i] == es[1..][i - 1];
        assert forall k :: Assigned(es[1..], k) ==> Assigned(es, k) by {
          forall k | Assigned(es[1..], k) ensures Assigned(es, k) {
            var i :| 0 <= i < |es[1..]| && es[1..][i].key == k;
            assert es[i + 1].key == k;
          }
        }
        r
  }

  /** A batch whose every entry has a value sets exactly the keys it names,
      each to the value of its last entry; the other keys keep their values. */
  lemma {:induction false} SetAllMerges(p: Prefs, es: seq<Entry>)
    requires AllDefined(es)
    ensures forall k :: Get(SetAll(p, es).prefs, k) == if Assigned(es, k) then LastValue(es, k) else Get(p, k)
    decreases |es|
  {
    if es != [] {
      var init := es[..|es| - 1];
      var last := es[|es| - 1];
      assert es == init + [last];
      assert AllDefined(init) by {
        assert forall i :: 0 <= i < |init| ==> init[i] == es[i];
      }
      SetAllMerges(p, init);
      SetAllSnoc(p, init, last);
      forall k ensures Get(SetAll(p, es).prefs, k) == if Assigned(es, k) then LastValue(es, k) else Get(p, k) {
        if k != last.key {
          AssignedSnoc(init, last, k);
        }
      }
    }
  }

  lemma AssignedSnoc(init: seq<Entry>, last: Entry, k: PrefKey)
    requires k != last.key
    ensures Assigned(init + [last], k) <==> Assigned(init, k)
    ensures Assigned(init, k) ==> LastValue(init + [last], k) == LastValue(init, k)
  {
    var es := init + [last];
    assert es[..|es| - 1] == init;
    if Assigned(es, k) {
      var i :| 0 <= i < |es| && es[i].key == k;
      assert init[i].key == k;
    }
    if Assigned(init, k) {
      var i :| 0 <= i < |init| && init[i].key == k;
      assert es[i].key == k;
    }
  }

  /** A batch that runs to the end writes its last entry last. */
  lemma {:induction false} SetAllSnoc(p: Prefs, init: seq<Entry>, last: Entry)
    requires SetAll(p, init).error.None?
    requires last.value.Some?
    ensures SetAll(p, init + [last]) == Applied(SetAll(p, init).prefs[last.key := last.value.value], None)
    decreases |init|
  {
    var es := init + [last];
    if init == [] {
      assert es == [last];
      assert es[1..] == [];
    } else {
      assert es[0] == init[0];
      assert es[1..] == init[1..] + [last];
      var q := Set(p, init[0].key, init[0].value);
      SetAllSnoc(q.value, init[1..], last);
    }
  }

  /** A batch stopped by an entry without a value leaves the store as the
      entries before it left it. */
  lemma {:induction false} SetAllStopsAtUndefined(p: Prefs, es: seq<Entry>)
    ensures SetAll(p, es).prefs == SetAll(p, es[..FirstUndefined(es)]).prefs
    decreases |es|
  {
    if es != [] && es[0].value.Some? {
      var q := Set(p, es[0].key, es[0].value).value;
      SetAllStopsAtUndefined(q, es[1..]);
      var n := FirstUndefined(es[1..]);
      assert es[..n + 1][1..] == es[1..][..n];
      assert es[..n + 1][0] == es[0];
    } else if es != [] {
      assert es[..0] == [];
    }
  }

  /** `reset()`: the store is cleared and every key with a default gets it
      back; the AI API key is left without a value. */
  function Reset(p: Prefs): (r: Prefs)
    ensures forall k :: Get(r, k) == Default(k)
    ensures PerplexityApiKey !in r
  {
    var r := Defaults();
    forall k ensures Get(r, k) == Default(k) {
      DefaultsAgree(k);
    }
    r
  }

  /** After a reset the store reads as a freshly opened one, whatever was
      written before. */
  lemma ResetForgetsOverrides(p: Prefs, q: Prefs)
    ensures Reset(p) == Reset(q) == Open(map[])
  {
    FreshStoreHoldsDefaults();
  }

  /** `resetToDefault(key)`: writes the key's default back; for the AI API
      key the default is undefined, so the write is rejected. */
  function ResetToDefault(p: Prefs, k: PrefKey): (r: Result<Prefs, StoreError>)
    ensures r.Err? <==> k == PerplexityApiKey
    ensures r.Err? ==> r.error == UndefinedValue
    ensures r.Ok? ==> Get(r.value, k) == Default(k)
    ensures r.Ok? ==> forall j :: j != k ==> Get(r.value, j) == Get(p, j)
  {
    Set(p, k, Default(k))
  }

  /** Resetting one key agrees with a full reset on that key. */
  lemma ResetToDefaultAgreesWithReset(p: Prefs, k: PrefKey)
    requires k != PerplexityApiKey
    ensures Get(ResetToDefault(p, k).value, k) == Get(Reset(p), k)
  {
  }

  /** `export()`: the whole stored object, as `getAll()` returns it. */
  function Export(p: Prefs): (r: Prefs)
    ensures forall k :: Get(p, k) == (if k in r then Some(r[k]) else None)
  {
    GetAll(p)
  }

  /** `import(preferences)`: `setAll(preferences)`. */
  function Import(p: Prefs, es: seq<Entry>): (r: Applied)
    ensures r.error.None? <==> AllDefined(es)
    ensures r.error.Some? ==> r.error.value == UndefinedValue
    ensures forall k :: !Assigned(es, k) ==> Get(r.prefs, k) == Get(p, k)
  {
    SetAll(p, es)
  }

  /** The entries of an exported object, in key order. */
  function Entries(p: Prefs, keys: seq<PrefKey>): (r: seq<Entry>)
    ensures |r| == |keys|
    ensures forall i :: 0 <= i < |keys| ==> r[i].key == keys[i] && r[i].value == Get(p, keys[i])
  {
    seq(|keys|, i requires 0 <= i < |keys| => Entry(keys[i], Get(p, keys[i])))
  }

  /** Importing into a store the object exported from another, listing
      exactly the keys the exported object holds, reproduces the exported
      store on those keys and keeps the rest. */
  lemma ImportExported(p: Prefs, q: Prefs, keys: seq<PrefKey>)
    requires forall i :: 0 <= i < |keys| ==> keys[i] in Export(q)
    ensures Import(p, Entries(Export(q), keys)).error.None?
    ensures forall k :: Get(Import(p, Entries(Export(q), keys)).prefs, k)
                     == if k in keys then Get(q, k) else Get(p, k)
  {
    var es := Entries(Export(q), keys);
    SetAllMerges(p, es);
    forall k ensures Get(SetAll(p, es).prefs, k) == if k in keys then Get(q, k) else Get(p, k) {
      if k in keys {
        var i :| 0 <= i < |keys| && keys[i] == k;
        assert Assigned(es, k) by { assert es[i].key == k; }
        LastValueAll(es, k, Get(q, k));
      } else {
        assert !Assigned(es, k);
      }
    }
  }

  /** When every entry naming `k` carries `v`, the last one does. */
  lemma {:induction false} LastValueAll(es: seq<Entry>, k: PrefKey, v: Option<PrefValue>)
    requires Assigned(es, k)
    requires forall i :: 0 <= i < |es| && es[i].key == k ==> es[i].value == v
    ensures LastValue(es, k) == v
    decreases |es|
  {
    var init := es[..|es| - 1];
    if es[|es| - 1].key != k {
      assert Assigned(init, k) by {
        var i :| 0 <= i < |es| && es[i].key == k;
        assert init[i].key == k;
      }
      assert forall i :: 0 <= i < |init| ==> init[i] == es[i];
      LastValueAll(init, k, v);
    }
  }
}
