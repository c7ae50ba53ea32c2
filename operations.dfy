/** The operations document: a JSON value into which the session writes upload promises at
    the paths the `map` field lists, the way `operationsPath.set(path, promise)` does. */
module Operations {
  import opened Wrappers
  import opened Uploads

  /** A parsed JSON value, plus the one non-JSON value the session writes into it: an
      upload's promise (its identity is the `Upload` object it belongs to). */
  datatype Json =
    | JNull
    | JBool(b: bool)
    | JNum(n: int)
    | JStr(s: string)
    | JArr(items: seq<Json>)
    | JObj(fields: map<string, Json>)
    | JUpload(upload: Upload)

  /** JavaScript truthiness of a value `JSON.parse` can produce. */
  predicate Truthy(j: Json)
  {
    match j
    case JNull => false
    case JBool(b) => b
    case JNum(n) => n != 0
    case JStr(s) => s != ""
    case _ => true
  }

  /** A path, already split into its dot-separated segments. */
  type Path = seq<string>

  function Digit(d: nat): (c: char)
    requires d < 10
  {
    "0123456789"[d]
  }

  /** The decimal numeral of `n`, with no leading zeros. */
  function ShowNat(n: nat): (s: string)
    ensures |s| > 0
  {
    if n < 10 then [Digit(n)] else ShowNat(n / 10) + [Digit(n % 10)]
  }

  function DigitValue(c: char): (r: nat)
  {
    if '0' <= c <= '9' then (c as int - '0' as int) as nat else 0
  }

  function DigitsValue(s: string): (r: nat)
  {
    if s == [] then 0 else DigitsValue(s[..|s| - 1]) * 10 + DigitValue(s[|s| - 1])
  }

  /** A segment addresses an array element exactly when it is the canonical numeral of an
      index, as object-path's key conversion decides. */
  function ParseIndex(seg: string): (r: Option<nat>)
    ensures r.Some? ==> ShowNat(r.value) == seg
  {
    var n := DigitsValue(seg);
    if ShowNat(n) == seg then Some(n) else None
  }

  lemma {:induction false} DigitsValueShowNat(n: nat)
    ensures DigitsValue(ShowNat(n)) == n
  {
    var s := ShowNat(n);
    if n < 10 {
      assert s[..|s| - 1] == [];
      assert DigitValue(Digit(n)) == n;
    } else {
      DigitsValueShowNat(n / 10);
      assert s[..|s| - 1] == ShowNat(n / 10);
      assert DigitValue(Digit(n % 10)) == n % 10;
    }
  }

  /** Every canonical numeral is read back as the index it names. */
  lemma ParseIndexShowNat(n: nat)
    ensures ParseIndex(ShowNat(n)) == Some(n)
  {
    DigitsValueShowNat(n);
  }

  /** Two segments that name the same array index are the same segment. */
  lemma ParseIndexInjective(a: string, b: string)
    requires ParseIndex(a).Some? && ParseIndex(a) == ParseIndex(b)
    ensures a == b
  {
  }

  /** The value at `p`, if `p` leads through existing object keys and array indices. */
  function GetAt(d: Json, p: Path): (r: Option<Json>)
  {
    if p == [] then Some(d)
    else match d
      case JObj(m) => if p[0] in m then GetAt(m[p[0]], p[1..]) else None
      case JArr(s) =>
        (match ParseIndex(p[0])
         case Some(i) => if i < |s| then GetAt(s[i], p[1..]) else None
         case None => None)
      case _ => None
  }

  /** `p` can be written: every segment but the last leads through an existing container,
      and the last one names a key of an object or an existing index of an array. */
  predicate Resolves(d: Json, p: Path)
  {
    p != [] &&
    match d
    case JObj(m) => |p| == 1 || (p[0] in m && Resolves(m[p[0]], p[1..]))
    case JArr(s) =>
      (match ParseIndex(p[0])
       case Some(i) => i < |s| && (|p| == 1 || Resolves(s[i], p[1..]))
       case None => false)
    case _ => false
  }

  /** `operationsPath.set(p, v)` on the document: writes `v` at `p` when `p` resolves, and
      otherwise leaves the document as it is. */
  function SetAt(d: Json, p: Path, v: Json): (r: Json)
  {
    if p == [] then d
    else match d
      case JObj(m) =>
        if |p| == 1 then JObj(m[p[0] := v])
        else if p[0] in m then JObj(m[p[0] := SetAt(m[p[0]], p[1..], v)])
        else d
      case JArr(s) =>
        (match ParseIndex(p[0])
         case Some(i) =>
           if i < |s| then JArr(s[i := if |p| == 1 then v else SetAt(s[i], p[1..], v)]) else d
         case None => d)
      case _ => d
  }

  predicate IsPrefix(p: Path, q: Path)
  {
    |p| <= |q| && q[..|p|] == p
  }

  /** Neither path leads into the other. */
  predicate Disjoint(p: Path, q: Path)
  {
    !IsPrefix(p, q) && !IsPrefix(q, p)
  }

  lemma DisjointTails(p: Path, q: Path)
    requires Disjoint(p, q) && |p| > 0 && |q| > 0 && p[0] == q[0]
    ensures |p| > 1 && |q| > 1 && Disjoint(p[1..], q[1..])
  {
  }

  /** A write at a resolving path can be read back there. */
  lemma {:induction false} SetAtGetAt(d: Json, p: Path, v: Json)
    requires Resolves(d, p)
    ensures GetAt(SetAt(d, p, v), p) == Some(v)
  {
    match d
    case JObj(m) =>
      if |p| > 1 {
        SetAtGetAt(m[p[0]], p[1..], v);
      }
    case JArr(s) =>
      var i := ParseIndex(p[0]).value;
      if |p| > 1 {
        SetAtGetAt(s[i], p[1..], v);
      }
  }

  /** A write at a path that does not resolve changes nothing. */
  lemma {:induction false} SetAtUnresolved(d: Json, p: Path, v: Json)
    requires !Resolves(d, p)
    ensures SetAt(d, p, v) == d
  {
    if p != [] {
      match d
      case JObj(m) =>
        if |p| > 1 && p[0] in m {
          SetAtUnresolved(m[p[0]], p[1..], v);
          assert m[p[0] := m[p[0]]] == m;
        }
      case JArr(s) => {
        match ParseIndex(p[0]) {
          case Some(i) =>
            if i < |s| {
              SetAtUnresolved(s[i], p[1..], v);
              assert s[i := s[i]] == s;
            }
          case None =>
        }
      }
      case _ =>
    }
  }

  /** A write at `p` is invisible at every path disjoint from `p`: what is there, and
      whether it can be written, stay as they were. */
  lemma {:induction false} SetAtFrame(d: Json, p: Path, q: Path, v: Json)
    requires Disjoint(p, q)
    ensures GetAt(SetAt(d, p, v), q) == GetAt(d, q)
    ensures Resolves(SetAt(d, p, v), q) == Resolves(d, q)
  {
    match d
    case JObj(m) =>
      if p[0] == q[0] {
        DisjointTails(p, q);
        if p[0] in m {
          SetAtFrame(m[p[0]], p[1..], q[1..], v);
        }
      }
    case JArr(s) => {
      match ParseIndex(p[0]) {
        case Some(i) =>
          if i < |s| && p[0] == q[0] {
            DisjointTails(p, q);
            SetAtFrame(s[i], p[1..], q[1..], v);
          } else if i < |s| && ParseIndex(q[0]) == Some(i) {
            ParseIndexInjective(p[0], q[0]);
          }
        case None =>
      }
    }
    case _ =>
  }

  /** One entry of the `map` field: a field name and the paths its upload goes to. */
  datatype MapEntry = MapEntry(key: string, paths: seq<Path>)

  /** One (field name, path) pair of the `map` field. */
  datatype Slot = Slot(key: string, path: Path)

  function Keys(es: seq<MapEntry>): (r: set<string>)
  {
    set i | 0 <= i < |es| :: es[i].key
  }

  /** Entries produced by `Object.entries` on a parsed object: no field name twice. */
  predicate DistinctKeys(es: seq<MapEntry>)
  {
    forall i, j :: 0 <= i < j < |es| ==> es[i].key != es[j].key
  }

  function EntrySlots(e: MapEntry): (r: seq<Slot>)
    ensures |r| == |e.paths|
    ensures forall j :: 0 <= j < |r| ==> r[j] == Slot(e.key, e.paths[j])
  {
    seq(|e.paths|, j requires 0 <= j < |e.paths| => Slot(e.key, e.paths[j]))
  }

  /** All (field name, path) pairs of the entries, in the order the session writes them. */
  function Slots(es: seq<MapEntry>): (r: seq<Slot>)
    ensures forall t :: 0 <= t < |r| ==> r[t].key in Keys(es)
  {
    if es == [] then []
    else
      var init := es[..|es| - 1];
      assert Keys(init) <= Keys(es) by {
        forall k | k in Keys(init) ensures k in Keys(es) {
          var i :| 0 <= i < |init| && init[i].key == k;
          assert es[i].key == k;
        }
      }
      assert es[|es| - 1].key in Keys(es);
      Slots(init) + EntrySlots(es[|es| - 1])
  }

  /** Taking one more entry adds that entry's slots at the end, and its key. */
  lemma SlotsStep(es: seq<MapEntry>, e: nat)
    requires e < |es|
    ensures Slots(es[..e + 1]) == Slots(es[..e]) + EntrySlots(es[e])
    ensures Keys(es[..e + 1]) == Keys(es[..e]) + {es[e].key}
  {
    assert es[..e + 1][..e] == es[..e];
    assert Keys(es[..e + 1]) == Keys(es[..e]) + {es[e].key} by {
      forall k | k in Keys(es[..e + 1]) ensures k in Keys(es[..e]) + {es[e].key} {
        var i :| 0 <= i < e + 1 && es[..e + 1][i].key == k;
        if i < e { assert es[..e][i].key == k; }
      }
      forall k | k in Keys(es[..e]) ensures k in Keys(es[..e + 1]) {
        var i :| 0 <= i < e && es[..e][i].key == k;
        assert es[..e + 1][i].key == k;
      }
      assert es[..e + 1][e].key == es[e].key;
    }
  }

  /** Every path of every entry appears among the slots, paired with its entry's key. */
  lemma {:induction false} SlotIndex(es: seq<MapEntry>, i: nat, j: nat) returns (t: nat)
    requires i < |es| && j < |es[i].paths|
    ensures t < |Slots(es)| && Slots(es)[t] == Slot(es[i].key, es[i].paths[j])
  {
    var init := es[..|es| - 1];
    if i == |es| - 1 {
      t := |Slots(init)| + j;
    } else {
      t := SlotIndex(init, i, j);
    }
  }

  /** The document after writing, slot by slot, the promise of each slot's upload at the
      slot's path. */
  function PlaceSlots(d: Json, s: seq<Slot>, m: map<string, Upload>): (r: Json)
    requires forall t :: 0 <= t < |s| ==> s[t].key in m
  {
    if s == [] then d
    else SetAt(PlaceSlots(d, s[..|s| - 1], m), s[|s| - 1].path, JUpload(m[s[|s| - 1].key]))
  }

  /** The writes only depend on the uploads of the keys they mention. */
  lemma {:induction false} PlaceSlotsAgree(d: Json, s: seq<Slot>, m: map<string, Upload>, m': map<string, Upload>)
    requires forall t :: 0 <= t < |s| ==> s[t].key in m && s[t].key in m' && m[s[t].key] == m'[s[t].key]
    ensures PlaceSlots(d, s, m) == PlaceSlots(d, s, m')
  {
    if s != [] {
      PlaceSlotsAgree(d, s[..|s| - 1], m, m');
    }
  }

  /** Every path is written once, each resolves in the document, and no path leads into
      another. */
  predicate Placeable(d: Json, s: seq<Slot>)
  {
    (forall t :: 0 <= t < |s| ==> Resolves(d, s[t].path)) &&
    (forall t, u :: 0 <= t < u < |s| ==> Disjoint(s[t].path, s[u].path))
  }

  /** Placing the slots is invisible at every path disjoint from all of theirs. */
  lemma {:induction false} PlaceSlotsFrame(d: Json, s: seq<Slot>, m: map<string, Upload>, q: Path)
    requires forall t :: 0 <= t < |s| ==> s[t].key in m
    requires forall t :: 0 <= t < |s| ==> Disjoint(s[t].path, q)
    ensures GetAt(PlaceSlots(d, s, m), q) == GetAt(d, q)
    ensures Resolves(PlaceSlots(d, s, m), q) == Resolves(d, q)
  {
    if s != [] {
      var n := |s| - 1;
      PlaceSlotsFrame(d, s[..n], m, q);
      SetAtFrame(PlaceSlots(d, s[..n], m), s[n].path, q, JUpload(m[s[n].key]));
    }
  }

  /** After placing placeable slots, each slot's path holds the promise of its own key's
      upload. */
  lemma {:induction false} PlaceSlotsPlaces(d: Json, s: seq<Slot>, m: map<string, Upload>, t: nat)
    requires forall u :: 0 <= u < |s| ==> s[u].key in m
    requires Placeable(d, s)
    requires t < |s|
    ensures GetAt(PlaceSlots(d, s, m), s[t].path) == Some(JUpload(m[s[t].key]))
  {
    var n := |s| - 1;
    var init := s[..n];
    var before := PlaceSlots(d, init, m);
    if t == n {
      PlaceSlotsFrame(d, init, m, s[n].path);
      SetAtGetAt(before, s[n].path, JUpload(m[s[n].key]));
    } else {
      PlaceSlotsPlaces(d, init, m, t);
      SetAtFrame(before, s[n].path, s[t].path, JUpload(m[s[n].key]));
    }
  }

  /** The deduplication guarantee: after placing all entries, every path listed for a field
      holds the promise of that field's one upload. */
  lemma PlacedAtEveryPath(d: Json, es: seq<MapEntry>, m: map<string, Upload>, i: nat, j: nat)
    requires Keys(es) <= m.Keys
    requires Placeable(d, Slots(es))
    requires i < |es| && j < |es[i].paths|
    ensures GetAt(PlaceSlots(d, Slots(es), m), es[i].paths[j]) == Some(JUpload(m[es[i].key]))
  {
    var t := SlotIndex(es, i, j);
    PlaceSlotsPlaces(d, Slots(es), m, t);
  }
}
