/**
 * The ISO 3166-1 numeric to alpha-2 reconciliation table
 * (src/lib/constants/country-codes.ts) and its inversion.
 *
 * The object literal is a sequence of (key, value) entries in source order;
 * building an object from entries keeps the last value of a repeated key.
 * `Object.entries` lists an object's own keys in ECMAScript's order:
 * canonical array-index keys ("100", "376") first, in ascending numeric
 * order, then the other keys ("004", "096") in creation order. The inverse is
 * `Object.fromEntries` over the swapped entries, so a repeated alpha-2 code
 * keeps the numeric key that comes last in that order.
 */
module CountryCodes {
  import opened Options
  import opened Strings

  /** A numeric key with its alpha-2 value. */
  type Entry = (string, string)

  /** Entries "004" to "152" of the literal, in source order. */
  const Block1: seq<Entry> := [
    ("004", "AF"), ("008", "AL"), ("010", "AQ"), ("012", "DZ"), ("016", "AS"),
    ("020", "AD"), ("024", "AO"), ("028", "AG"), ("031", "AZ"), ("032", "AR"),
    ("036", "AU"), ("040", "AT"), ("044", "BS"), ("048", "BH"), ("050", "BD"),
    ("051", "AM"), ("052", "BB"), ("056", "BE"), ("060", "BM"), ("064", "BT"),
    ("068", "BO"), ("070", "BA"), ("072", "BW"), ("076", "BR"), ("084", "BZ"),
    ("090", "SB"), ("092", "VG"), ("096", "BN"), ("100", "BG"), ("104", "MM"),
    ("108", "BI"), ("112", "BY"), ("116", "KH"), ("120", "CM"), ("124", "CA"),
    ("132", "CV"), ("140", "CF"), ("144", "LK"), ("148", "TD"), ("152", "CL")
  ]

  /** Entries "156" to "288" of the literal, in source order. */
  const Block2: seq<Entry> := [
    ("156", "CN"), ("158", "TW"), ("162", "CX"), ("166", "CC"), ("170", "CO"),
    ("174", "KM"), ("175", "YT"), ("178", "CG"), ("180", "CD"), ("184", "CK"),
    ("188", "CR"), ("191", "HR"), ("192", "CU"), ("196", "CY"), ("203", "CZ"),
    ("204", "BJ"), ("208", "DK"), ("212", "DM"), ("214", "DO"), ("218", "EC"),
    ("222", "SV"), ("226", "GQ"), ("231", "ET"), ("232", "ER"), ("233", "EE"),
    ("234", "FO"), ("238", "FK"), ("242", "FJ"), ("246", "FI"), ("250", "FR"),
    ("254", "GF"), ("258", "PF"), ("260", "TF"), ("262", "DJ"), ("266", "GA"),
    ("268", "GE"), ("270", "GM"), ("275", "IL"), ("276", "DE"), ("288", "GH")
  ]

  /** Entries "296" to "440" of the literal, in source order. */
  const Block3: seq<Entry> := [
    ("296", "KI"), ("300", "GR"), ("304", "GL"), ("308", "GD"), ("312", "GP"),
    ("316", "GU"), ("320", "GT"), ("324", "GN"), ("328", "GY"), ("332", "HT"),
    ("336", "VA"), ("340", "HN"), ("344", "HK"), ("348", "HU"), ("352", "IS"),
    ("356", "IN"), ("360", "ID"), ("364", "IR"), ("368", "IQ"), ("372", "IE"),
    ("376", "IL"), ("380", "IT"), ("384", "CI"), ("388", "JM"), ("392", "JP"),
    ("398", "KZ"), ("400", "JO"), ("404", "KE"), ("408", "KP"), ("410", "KR"),
    ("414", "KW"), ("417", "KG"), ("418", "LA"), ("422", "LB"), ("426", "LS"),
    ("428", "LV"), ("430", "LR"), ("434", "LY"), ("438", "LI"), ("440", "LT")
  ]

  /** Entries "442" to "586" of the literal, in source order. */
  const Block4: seq<Entry> := [
    ("442", "LU"), ("446", "MO"), ("450", "MG"), ("454", "MW"), ("458", "MY"),
    ("462", "MV"), ("466", "ML"), ("470", "MT"), ("474", "MQ"), ("478", "MR"),
    ("480", "MU"), ("484", "MX"), ("492", "MC"), ("496", "MN"), ("498", "MD"),
    ("499", "ME"), ("504", "MA"), ("508", "MZ"), ("512", "OM"), ("516", "NA"),
    ("520", "NR"), ("524", "NP"), ("528", "NL"), ("531", "CW"), ("533", "AW"),
    ("534", "SX"), ("540", "NC"), ("548", "VU"), ("554", "NZ"), ("558", "NI"),
    ("562", "NE"), ("566", "NG"), ("570", "NU"), ("574", "NF"), ("578", "NO"),
    ("580", "MP"), ("583", "FM"), ("584", "MH"), ("585", "PW"), ("586", "PK")
  ]

  /** Entries "591" to "728" of the literal, in source order. */
  const Block5: seq<Entry> := [
    ("591", "PA"), ("598", "PG"), ("600", "PY"), ("604", "PE"), ("608", "PH"),
    ("612", "PN"), ("616", "PL"), ("620", "PT"), ("624", "GW"), ("626", "TL"),
    ("630", "PR"), ("634", "QA"), ("638", "RE"), ("642", "RO"), ("643", "RU"),
    ("646", "RW"), ("652", "BL"), ("654", "SH"), ("659", "KN"), ("660", "AI"),
    ("662", "LC"), ("663", "MF"), ("666", "PM"), ("670", "VC"), ("674", "SM"),
    ("678", "ST"), ("682", "SA"), ("686", "SN"), ("688", "RS"), ("690", "SC"),
    ("694", "SL"), ("702", "SG"), ("703", "SK"), ("704", "VN"), ("705", "SI"),
    ("706", "SO"), ("710", "ZA"), ("716", "ZW"), ("724", "ES"), ("728", "SS")
  ]

  /** Entries "729" to "900" of the literal, in source order. */
  const Block6: seq<Entry> := [
    ("729", "SD"), ("732", "EH"), ("740", "SR"), ("744", "SJ"), ("748", "SZ"),
    ("752", "SE"), ("756", "CH"), ("760", "SY"), ("762", "TJ"), ("764", "TH"),
    ("768", "TG"), ("772", "TK"), ("776", "TO"), ("780", "TT"), ("784", "AE"),
    ("788", "TN"), ("792", "TR"), ("795", "TM"), ("796", "TC"), ("798", "TV"),
    ("800", "UG"), ("804", "UA"), ("807", "MK"), ("818", "EG"), ("826", "GB"),
    ("831", "GG"), ("832", "JE"), ("833", "IM"), ("834", "TZ"), ("840", "US"),
    ("850", "VI"), ("854", "BF"), ("858", "UY"), ("860", "UZ"), ("862", "VE"),
    ("876", "WF"), ("882", "WS"), ("887", "YE"), ("894", "ZM"), ("900", "XK")
  ]

  /** `NUMERIC_TO_ALPHA2` as written: 240 entries, split into blocks of forty. */
  const Table: seq<Entry> := Block1 + Block2 + Block3 + Block4 + Block5 + Block6

  // ----- Objects built from entries -----

  function KeysOf(s: seq<Entry>): set<string> {
    set e | e in s :: e.0
  }

  function ValuesOf(s: seq<Entry>): set<string> {
    set e | e in s :: e.1
  }

  /**
   * The object an entry list creates, as an object literal or
   * `Object.fromEntries` does: one key per distinct entry key, and a later
   * entry overwrites an earlier one.
   */
  function FromEntries(s: seq<Entry>): (m: map<string, string>)
    ensures m.Keys == KeysOf(s)
    ensures forall k :: k in m ==> (k, m[k]) in s
  {
    if s == [] then map[]
    else
      var last := s[|s| - 1];
      assert s == s[..|s| - 1] + [last];
      FromEntries(s[..|s| - 1])[last.0 := last.1]
  }

  /** Last wins: the value kept for a key is that of an entry every later entry for the key agrees with. */
  lemma {:induction false} FromEntriesLastWins(s: seq<Entry>, i: nat)
    requires i < |s|
    requires forall j :: i < j < |s| && s[j].0 == s[i].0 ==> s[j].1 == s[i].1
    ensures s[i].0 in FromEntries(s) && FromEntries(s)[s[i].0] == s[i].1
  {
    if i < |s| - 1 && s[|s| - 1].0 != s[i].0 {
      FromEntriesLastWins(s[..|s| - 1], i);
    }
  }

  predicate DistinctKeys(s: seq<Entry>) {
    forall i, j :: 0 <= i < j < |s| ==> s[i].0 != s[j].0
  }

  /** With distinct keys every entry survives in the object. */
  lemma FromDistinctEntries(s: seq<Entry>, e: Entry)
    requires DistinctKeys(s) && e in s
    ensures e.0 in FromEntries(s) && FromEntries(s)[e.0] == e.1
  {
    var i :| 0 <= i < |s| && s[i] == e;
    FromEntriesLastWins(s, i);
  }

  // ----- Property order of Object.entries -----

  /** A canonical array index: decimal digits, no leading zero, below 2^32 - 1. */
  predicate IsArrayIndex(k: string) {
    |k| > 0 && AllDigits(k) && (k[0] != '0' || |k| == 1) && DigitsValue(k) < 0xFFFF_FFFF
  }

  function IndexValue(k: string): nat {
    if AllDigits(k) then DigitsValue(k) else 0
  }

  /** Keys ascend under `key`: each entry's key is at most the next one's. */
  predicate SortedBy(s: seq<Entry>, key: string -> nat) {
    forall i :: 0 <= i < |s| - 1 ==> key(s[i].0) <= key(s[i + 1].0)
  }

  /** Adjacent order gives order between any two positions. */
  lemma {:induction false} SortedByOrdered(s: seq<Entry>, key: string -> nat, i: nat, j: nat)
    requires SortedBy(s, key) && i <= j < |s|
    ensures key(s[i].0) <= key(s[j].0)
    decreases j - i
  {
    if i < j {
      SortedByOrdered(s, key, i + 1, j);
    }
  }

  /** Inserts `e` in front of the first entry with a key at least as large. */
  function InsertBy(e: Entry, s: seq<Entry>, key: string -> nat): (r: seq<Entry>)
    ensures |r| == |s| + 1
    ensures multiset(r) == multiset(s) + multiset{e}
  {
    if s == [] then [e]
    else if key(e.0) <= key(s[0].0) then [e] + s
    else
      assert s == [s[0]] + s[1..];
      [s[0]] + InsertBy(e, s[1..], key)
  }

  /** Putting an entry no larger than the head in front of an ascending list keeps it ascending. */
  lemma ConsSorted(x: Entry, t: seq<Entry>, key: string -> nat)
    requires SortedBy(t, key) && (t != [] ==> key(x.0) <= key(t[0].0))
    ensures SortedBy([x] + t, key)
  {
    var r := [x] + t;
    forall i | 0 <= i < |r| - 1 ensures key(r[i].0) <= key(r[i + 1].0) {
      if i > 0 {
        assert r[i] == t[i - 1] && r[i + 1] == t[i];
      }
    }
  }

  /** Inserting into an ascending list keeps it ascending; the new head is `e` or the old head. */
  lemma {:induction false} InsertBySorted(e: Entry, s: seq<Entry>, key: string -> nat)
    requires SortedBy(s, key)
    ensures SortedBy(InsertBy(e, s, key), key)
    ensures InsertBy(e, s, key)[0] == e || (s != [] && InsertBy(e, s, key)[0] == s[0])
  {
    if s == [] {
    } else if key(e.0) <= key(s[0].0) {
      ConsSorted(e, s, key);
    } else {
      var t := s[1..];
      assert SortedBy(t, key) by {
        forall i | 0 <= i < |t| - 1 ensures key(t[i].0) <= key(t[i + 1].0) {
          assert t[i] == s[i + 1] && t[i + 1] == s[i + 2];
        }
      }
      InsertBySorted(e, t, key);
      var rest := InsertBy(e, t, key);
      assert t != [] ==> key(s[0].0) <= key(t[0].0) by {
        if t != [] { assert t[0] == s[1]; }
      }
      ConsSorted(s[0], rest, key);
    }
  }

  /** Insertion sort by `key`: ascending, and a permutation of `s`. */
  function SortBy(s: seq<Entry>, key: string -> nat): (r: seq<Entry>)
    ensures SortedBy(r, key)
    ensures multiset(r) == multiset(s)
  {
    if s == [] then []
    else
      assert s == [s[0]] + s[1..];
      var t := SortBy(s[1..], key);
      InsertBySorted(s[0], t, key);
      InsertBy(s[0], t, key)
  }

  /** The entries whose key is (`wantIndex`) or is not (`!wantIndex`) an array index, in order. */
  function SelectKeys(s: seq<Entry>, wantIndex: bool): (r: seq<Entry>)
    ensures forall e :: e in r <==> e in s && IsArrayIndex(e.0) == wantIndex
  {
    if s == [] then []
    else
      assert s == [s[0]] + s[1..];
      (if IsArrayIndex(s[0].0) == wantIndex then [s[0]] else []) + SelectKeys(s[1..], wantIndex)
  }

  /**
   * `Object.entries` of the object created from `s`: array-index keys first,
   * ascending, then the other keys in creation order.
   */
  function OwnEntries(s: seq<Entry>): (r: seq<Entry>)
    ensures forall e :: e in r <==> e in s
  {
    var r := SortBy(SelectKeys(s, true), IndexValue) + SelectKeys(s, false);
    assert forall e :: e in SortBy(SelectKeys(s, true), IndexValue) <==> e in SelectKeys(s, true) by {
      forall e ensures e in SortBy(SelectKeys(s, true), IndexValue) <==> e in SelectKeys(s, true) {
        assert e in multiset(SortBy(SelectKeys(s, true), IndexValue)) <==> e in multiset(SelectKeys(s, true));
      }
    }
    r
  }

  /** Selecting from a concatenation selects from each part, in order. */
  lemma {:induction false} SelectKeysAppend(a: seq<Entry>, b: seq<Entry>, wantIndex: bool)
    ensures SelectKeys(a + b, wantIndex) == SelectKeys(a, wantIndex) + SelectKeys(b, wantIndex)
  {
    if a == [] {
      assert a + b == b;
    } else {
      assert (a + b)[0] == a[0] && (a + b)[1..] == a[1..] + b;
      SelectKeysAppend(a[1..], b, wantIndex);
    }
  }

  /** One entry is kept exactly when its key is of the wanted kind. */
  lemma SelectKeysSingle(e: Entry, wantIndex: bool)
    ensures SelectKeys([e], wantIndex) == if IsArrayIndex(e.0) == wantIndex then [e] else []
  {
    assert [e][1..] == [];
  }

  /** The two selections split `s`: together they hold every entry, as often as `s` does. */
  lemma {:induction false} SelectKeysPartition(s: seq<Entry>)
    ensures multiset(SelectKeys(s, true)) + multiset(SelectKeys(s, false)) == multiset(s)
  {
    if s != [] {
      assert s == [s[0]] + s[1..];
      SelectKeysPartition(s[1..]);
    }
  }

  /** A list whose keys are all of one kind is kept whole by that selection and emptied by the other. */
  lemma {:induction false} SelectKeysUniform(s: seq<Entry>, wantIndex: bool)
    requires forall i :: 0 <= i < |s| ==> IsArrayIndex(s[i].0) == wantIndex
    ensures SelectKeys(s, wantIndex) == s
    ensures SelectKeys(s, !wantIndex) == []
  {
    if s != [] {
      assert s == [s[0]] + s[1..];
      SelectKeysUniform(s[1..], wantIndex);
    }
  }

  /** The sorted array-index part holds only array-index keys; the rest holds none. */
  lemma OwnEntriesParts(s: seq<Entry>)
    ensures forall i :: 0 <= i < |SortBy(SelectKeys(s, true), IndexValue)| ==>
              IsArrayIndex(SortBy(SelectKeys(s, true), IndexValue)[i].0)
    ensures forall i :: 0 <= i < |SelectKeys(s, false)| ==> !IsArrayIndex(SelectKeys(s, false)[i].0)
  {
    var sorted := SortBy(SelectKeys(s, true), IndexValue);
    var others := SelectKeys(s, false);
    forall i | 0 <= i < |sorted| ensures IsArrayIndex(sorted[i].0) {
      assert sorted[i] in multiset(SelectKeys(s, true));
    }
    forall i | 0 <= i < |others| ensures !IsArrayIndex(others[i].0) {
      assert others[i] in others;
    }
  }

  /** In `Object.entries`, the array-index keys are exactly the leading ones. */
  lemma OwnEntriesIndexFirst(s: seq<Entry>)
    ensures forall i :: 0 <= i < |OwnEntries(s)| ==>
              (IsArrayIndex(OwnEntries(s)[i].0) <==> i < |SelectKeys(s, true)|)
  {
    var sorted := SortBy(SelectKeys(s, true), IndexValue);
    var others := SelectKeys(s, false);
    var o := OwnEntries(s);
    assert o == sorted + others;
    OwnEntriesParts(s);
    assert |sorted| == |SelectKeys(s, true)| by {
      assert |multiset(sorted)| == |multiset(SelectKeys(s, true))|;
    }
    forall i | 0 <= i < |o| ensures IsArrayIndex(o[i].0) <==> i < |sorted| {
      if i < |sorted| {
        assert o[i] == sorted[i];
      } else {
        assert o[i] == others[i - |sorted|];
      }
    }
  }

  /**
   * The order of `Object.entries`: a permutation of the entries in which
   * every array-index key comes before every other key, the array-index keys
   * ascend, and the other keys keep their creation order.
   */
  lemma OwnEntriesOrder(s: seq<Entry>)
    ensures multiset(OwnEntries(s)) == multiset(s)
    ensures forall i, j :: 0 <= i < j < |OwnEntries(s)| && IsArrayIndex(OwnEntries(s)[j].0) ==>
              IsArrayIndex(OwnEntries(s)[i].0)
    ensures forall i :: 0 <= i < |OwnEntries(s)| - 1 && IsArrayIndex(OwnEntries(s)[i + 1].0) ==>
              IndexValue(OwnEntries(s)[i].0) <= IndexValue(OwnEntries(s)[i + 1].0)
    ensures SelectKeys(OwnEntries(s), false) == SelectKeys(s, false)
  {
    var sorted := SortBy(SelectKeys(s, true), IndexValue);
    var others := SelectKeys(s, false);
    var o := OwnEntries(s);
    assert o == sorted + others;
    SelectKeysPartition(s);
    OwnEntriesIndexFirst(s);
    OwnEntriesParts(s);
    forall i | 0 <= i < |o| - 1 && IsArrayIndex(o[i + 1].0)
      ensures IndexValue(o[i].0) <= IndexValue(o[i + 1].0)
    {
      assert o[i] == sorted[i] && o[i + 1] == sorted[i + 1];
    }
    SelectKeysAppend(sorted, others, false);
    SelectKeysUniform(sorted, true);
    SelectKeysUniform(others, false);
  }

  /** `([k, v]) => [v, k]` over a list of entries. */
  function Swap(s: seq<Entry>): (r: seq<Entry>)
    ensures |r| == |s| && forall i :: 0 <= i < |s| ==> r[i] == (s[i].1, s[i].0)
  {
    seq(|s|, i requires 0 <= i < |s| => (s[i].1, s[i].0))
  }

  // ----- The two tables -----

  /** `NUMERIC_TO_ALPHA2` as an object. */
  const NumericToAlpha2: map<string, string> := FromEntries(Table)

  /** `ALPHA2_TO_NUMERIC`: `Object.fromEntries` over the swapped `Object.entries`. */
  const Alpha2ToNumeric: map<string, string> := Invert(Table)

  /** `NUMERIC_TO_ALPHA2[id]`: an id that is not a key is a miss, never an error. */
  function Alpha2Of(numericId: string): (r: Option<string>)
    ensures r.None? <==> numericId !in KeysOf(Table)
    ensures r.Some? ==> (numericId, r.value) in Table
  {
    if numericId in NumericToAlpha2 then Some(NumericToAlpha2[numericId]) else None
  }

  // ----- Facts about the literal -----

  predicate IsNumericKey(k: string) {
    |k| == 3 && IsDigit(k[0]) && IsDigit(k[1]) && IsDigit(k[2])
  }

  predicate IsAlpha2(v: string) {
    |v| == 2 && 'A' <= v[0] <= 'Z' && 'A' <= v[1] <= 'Z'
  }

  function Key3(k: string): nat
    requires IsNumericKey(k)
  {
    100 * (k[0] as int - '0' as int) + 10 * (k[1] as int - '0' as int) + (k[2] as int - '0' as int)
  }

  /** Every key is three decimal digits and every value two upper-case ASCII letters. */
  predicate WellFormedEntries(b: seq<Entry>) {
    forall i :: 0 <= i < |b| ==> IsNumericKey(b[i].0) && IsAlpha2(b[i].1)
  }

  /** Keys strictly ascend from each entry to the next. */
  predicate Ascending(b: seq<Entry>)
    requires WellFormedEntries(b)
  {
    forall i :: 0 <= i < |b| - 1 ==> Key3(b[i].0) < Key3(b[i + 1].0)
  }

  /** Only the keys "275" and "376" carry the value "IL". */
  predicate IsraelOnlyAt275And376(b: seq<Entry>) {
    forall i :: 0 <= i < |b| ==> b[i].1 == "IL" ==> b[i].0 == "275" || b[i].0 == "376"
  }

  lemma Block1WellFormed() ensures WellFormedEntries(Block1) {
    forall i | 0 <= i < |Block1| ensures IsNumericKey(Block1[i].0) && IsAlpha2(Block1[i].1) { }
  }
  lemma Block1Ascending() ensures WellFormedEntries(Block1) && Ascending(Block1) {
    Block1WellFormed();
    forall i | 0 <= i < |Block1| - 1 ensures Key3(Block1[i].0) < Key3(Block1[i + 1].0) { }
  }
  lemma Block1Israel() ensures IsraelOnlyAt275And376(Block1) { }

  lemma Block2WellFormed() ensures WellFormedEntries(Block2) {
    forall i | 0 <= i < |Block2| ensures IsNumericKey(Block2[i].0) && IsAlpha2(Block2[i].1) { }
  }
  lemma Block2Ascending() ensures WellFormedEntries(Block2) && Ascending(Block2) {
    Block2WellFormed();
    forall i | 0 <= i < |Block2| - 1 ensures Key3(Block2[i].0) < Key3(Block2[i + 1].0) { }
  }
  lemma Block2Israel() ensures IsraelOnlyAt275And376(Block2) { }

  lemma Block3WellFormed() ensures WellFormedEntries(Block3) {
    forall i | 0 <= i < |Block3| ensures IsNumericKey(Block3[i].0) && IsAlpha2(Block3[i].1) { }
  }
  lemma Block3Ascending() ensures WellFormedEntries(Block3) && Ascending(Block3) {
    Block3WellFormed();
    forall i | 0 <= i < |Block3| - 1 ensures Key3(Block3[i].0) < Key3(Block3[i + 1].0) { }
  }
  lemma Block3Israel() ensures IsraelOnlyAt275And376(Block3) { }

  lemma Block4WellFormed() ensures WellFormedEntries(Block4) {
    forall i | 0 <= i < |Block4| ensures IsNumericKey(Block4[i].0) && IsAlpha2(Block4[i].1) { }
  }
  lemma Block4Ascending() ensures WellFormedEntries(Block4) && Ascending(Block4) {
    Block4WellFormed();
    forall i | 0 <= i < |Block4| - 1 ensures Key3(Block4[i].0) < Key3(Block4[i + 1].0) { }
  }
  lemma Block4Israel() ensures IsraelOnlyAt275And376(Block4) { }

  lemma Block5WellFormed() ensures WellFormedEntries(Block5) {
    forall i | 0 <= i < |Block5| ensures IsNumericKey(Block5[i].0) && IsAlpha2(Block5[i].1) { }
  }
  lemma Block5Ascending() ensures WellFormedEntries(Block5) && Ascending(Block5) {
    Block5WellFormed();
    forall i | 0 <= i < |Block5| - 1 ensures Key3(Block5[i].0) < Key3(Block5[i + 1].0) { }
  }
  lemma Block5Israel() ensures IsraelOnlyAt275And376(Block5) { }

  lemma Block6WellFormed() ensures WellFormedEntries(Block6) {
    forall i | 0 <= i < |Block6| ensures IsNumericKey(Block6[i].0) && IsAlpha2(Block6[i].1) { }
  }
  lemma Block6Ascending() ensures WellFormedEntries(Block6) && Ascending(Block6) {
    Block6WellFormed();
    forall i | 0 <= i < |Block6| - 1 ensures Key3(Block6[i].0) < Key3(Block6[i + 1].0) { }
  }
  lemma Block6Israel() ensures IsraelOnlyAt275And376(Block6) { }

  lemma JoinBlocks(a: seq<Entry>, b: seq<Entry>)
    requires WellFormedEntries(a) && Ascending(a) && IsraelOnlyAt275And376(a) && a != []
    requires WellFormedEntries(b) && Ascending(b) && IsraelOnlyAt275And376(b) && b != []
    requires Key3(a[|a| - 1].0) < Key3(b[0].0)
    ensures WellFormedEntries(a + b) && Ascending(a + b) && IsraelOnlyAt275And376(a + b)
  {
  }

  lemma TableFacts()
    ensures WellFormedEntries(Table) && Ascending(Table) && IsraelOnlyAt275And376(Table)
  {
    Block1Ascending(); Block1Israel();
    Block2Ascending(); Block2Israel();
    Block3Ascending(); Block3Israel();
    Block4Ascending(); Block4Israel();
    Block5Ascending(); Block5Israel();
    Block6Ascending(); Block6Israel();
    JoinBlocks(Block1, Block2);
    JoinBlocks(Block1 + Block2, Block3);
    JoinBlocks(Block1 + Block2 + Block3, Block4);
    JoinBlocks(Block1 + Block2 + Block3 + Block4, Block5);
    JoinBlocks(Block1 + Block2 + Block3 + Block4 + Block5, Block6);
  }

  /** Strictly ascending neighbours make every earlier key smaller than every later one. */
  lemma {:induction false} AscendingAll(b: seq<Entry>, i: nat, j: nat)
    requires WellFormedEntries(b) && Ascending(b)
    requires i < j < |b|
    ensures Key3(b[i].0) < Key3(b[j].0)
  {
    if i + 1 < j {
      AscendingAll(b, i, j - 1);
    }
  }

  lemma TableDistinctKeys()
    ensures DistinctKeys(Table)
  {
    TableFacts();
    forall i, j | 0 <= i < j < |Table| ensures Table[i].0 != Table[j].0 {
      AscendingAll(Table, i, j);
    }
  }

  /** A three-digit key denotes the number its digits spell, and is an array index unless it starts with '0'. */
  lemma ThreeDigitKey(k: string)
    requires IsNumericKey(k)
    ensures AllDigits(k) && DigitsValue(k) == Key3(k)
    ensures IsArrayIndex(k) <==> k[0] != '0'
  {
    var k2 := k[..2];
    var k1 := k2[..1];
    assert k1 == [k[0]] && k1[..0] == [];
    assert DigitsValue(k1) == k[0] as int - '0' as int;
    assert DigitsValue(k2) == 10 * DigitsValue(k1) + (k[1] as int - '0' as int);
  }

  // ----- The inversion, for any entry list -----

  /**
   * `Object.fromEntries(Object.entries(o).map(([k, v]) => [v, k]))`, with the
   * entry list `s` standing for the object `o`. `OwnEntries(s)` enumerates
   * `s` itself, which is `Object.entries(o)` when no key of `s` repeats: the
   * case of the table, by `TableDistinctKeys`.
   */
  function Invert(s: seq<Entry>): map<string, string> {
    FromEntries(Swap(OwnEntries(s)))
  }

  /** Every inverse entry is a swapped entry of `s`. */
  lemma InvertFrom(s: seq<Entry>, a: string)
    requires a in Invert(s)
    ensures (Invert(s)[a], a) in s
  {
    var w := Swap(OwnEntries(s));
    var i :| 0 <= i < |w| && w[i] == (a, Invert(s)[a]);
    assert OwnEntries(s)[i] in OwnEntries(s);
  }

  /** The inverse has a key for every value of `s` and for nothing else. */
  lemma InvertKeys(s: seq<Entry>)
    ensures Invert(s).Keys == ValuesOf(s)
  {
    forall a | a in Invert(s) ensures a in ValuesOf(s) {
      InvertFrom(s, a);
    }
    forall v | v in ValuesOf(s) ensures v in Invert(s) {
      var e :| e in s && e.1 == v;
      var o := OwnEntries(s);
      var i :| 0 <= i < |o| && o[i] == e;
      assert Swap(o)[i] == (v, e.0);
    }
  }

  /** With distinct keys, the object's values are the entries' values. */
  lemma ForwardValues(s: seq<Entry>)
    requires DistinctKeys(s)
    ensures FromEntries(s).Values == ValuesOf(s)
  {
    forall v | v in ValuesOf(s) ensures v in FromEntries(s).Values {
      var e :| e in s && e.1 == v;
      FromDistinctEntries(s, e);
    }
  }

  /**
   * When a value occurs under exactly two array-index keys, the inverse keeps
   * the numerically larger one, wherever the two stand in `s`.
   */
  lemma InvertLastWins(s: seq<Entry>, v: string, small: string, large: string)
    requires (small, v) in s && (large, v) in s
    requires IsArrayIndex(small) && IsArrayIndex(large) && IndexValue(small) < IndexValue(large)
    requires forall e :: e in s && e.1 == v ==> e.0 == small || e.0 == large
    ensures v in Invert(s) && Invert(s)[v] == large
  {
    var sorted := SortBy(SelectKeys(s, true), IndexValue);
    var others := SelectKeys(s, false);
    var o := OwnEntries(s);
    assert o == sorted + others;
    assert (large, v) in multiset(sorted);
    var p :| 0 <= p < |sorted| && sorted[p] == (large, v);
    var w := Swap(o);
    assert w[p] == (v, large);
    forall j | p < j < |w| && w[j].0 == v ensures w[j].1 == large {
      assert o[j] in o;
      assert o[j].0 != small by {
        if j < |sorted| {
          SortedByOrdered(sorted, IndexValue, p, j);
        } else {
          assert o[j] in others;
        }
      }
    }
    FromEntriesLastWins(w, p);
  }

  // ----- The properties of the two tables -----

  /** Every key of `NUMERIC_TO_ALPHA2` is three digits and every value two upper-case letters. */
  lemma TableWellFormed()
    ensures forall k :: k in NumericToAlpha2 ==> IsNumericKey(k) && IsAlpha2(NumericToAlpha2[k])
  {
    TableFacts();
    WellFormedObject(Table);
  }

  /** Objects built from well-formed entries have well-formed keys and values. */
  lemma WellFormedObject(s: seq<Entry>)
    requires WellFormedEntries(s)
    ensures forall k :: k in FromEntries(s) ==> IsNumericKey(k) && IsAlpha2(FromEntries(s)[k])
  {
    forall k | k in FromEntries(s) ensures IsNumericKey(k) && IsAlpha2(FromEntries(s)[k]) {
      var i :| 0 <= i < |s| && s[i] == (k, FromEntries(s)[k]);
    }
  }

  /** Soundness of the inverse: looking a code up forwards again gives the code back. */
  lemma InverseSound(a: string)
    requires a in Alpha2ToNumeric
    ensures Alpha2ToNumeric[a] in NumericToAlpha2
    ensures NumericToAlpha2[Alpha2ToNumeric[a]] == a
  {
    InvertFrom(Table, a);
    TableDistinctKeys();
    FromDistinctEntries(Table, (Alpha2ToNumeric[a], a));
  }

  /** The inverse has a key for exactly the codes the forward table produces. */
  lemma InverseKeys()
    ensures Alpha2ToNumeric.Keys == NumericToAlpha2.Values
  {
    InvertKeys(Table);
    TableDistinctKeys();
    ForwardValues(Table);
  }

  /** Round trip: a numeric key whose code no other key shares is what the inverse gives for that code. */
  lemma RoundTrip(k: string)
    requires k in NumericToAlpha2
    requires forall k' :: k' in NumericToAlpha2 && NumericToAlpha2[k'] == NumericToAlpha2[k] ==> k' == k
    ensures NumericToAlpha2[k] in Alpha2ToNumeric
    ensures Alpha2ToNumeric[NumericToAlpha2[k]] == k
  {
    InverseKeys();
    InverseSound(NumericToAlpha2[k]);
  }

  lemma IsraelEntries()
    ensures ("275", "IL") in Table && ("376", "IL") in Table
  {
    assert Block2[37] == ("275", "IL");
    assert Block3[20] == ("376", "IL");
    assert Block2[37] in Block1 + Block2;
    assert Block3[20] in Block1 + Block2 + Block3;
  }

  /** The only entries with the value "IL" are those of "275" and "376". */
  lemma IsraelKeys()
    ensures forall e :: e in Table && e.1 == "IL" ==> e.0 == "275" || e.0 == "376"
  {
    TableFacts();
    forall e | e in Table && e.1 == "IL" ensures e.0 == "275" || e.0 == "376" {
      var i :| 0 <= i < |Table| && Table[i] == e;
    }
  }

  /** Every entry of the literal survives in the object: its key maps to its value. */
  lemma ForwardOf(e: Entry)
    requires e in Table
    ensures e.0 in NumericToAlpha2 && NumericToAlpha2[e.0] == e.1
  {
    TableDistinctKeys();
    FromDistinctEntries(Table, e);
  }

  lemma IsraelForward()
    ensures "275" in NumericToAlpha2 && NumericToAlpha2["275"] == "IL"
    ensures "376" in NumericToAlpha2 && NumericToAlpha2["376"] == "IL"
  {
    IsraelEntries();
    ForwardOf(("275", "IL"));
    ForwardOf(("376", "IL"));
  }

  lemma IsraelInverse()
    ensures "IL" in Alpha2ToNumeric && Alpha2ToNumeric["IL"] == "376"
  {
    IsraelEntries();
    IsraelKeys();
    ThreeDigitKey("275");
    ThreeDigitKey("376");
    InvertLastWins(Table, "IL", "275", "376");
  }

  /**
   * "275" and "376" both map to "IL"; both are array-index keys, so "376"
   * comes later in `Object.entries` and wins: the inverse gives "376" for
   * "IL" and never gives "275".
   */
  lemma IsraelLastWins()
    ensures "275" in NumericToAlpha2 && NumericToAlpha2["275"] == "IL"
    ensures "376" in NumericToAlpha2 && NumericToAlpha2["376"] == "IL"
    ensures "IL" in Alpha2ToNumeric && Alpha2ToNumeric["IL"] == "376"
    ensures "275" !in Alpha2ToNumeric.Values
  {
    IsraelForward();
    IsraelInverse();
    if "275" in Alpha2ToNumeric.Values {
      var a :| a in Alpha2ToNumeric && Alpha2ToNumeric[a] == "275";
      InverseSound(a);
    }
  }
}
