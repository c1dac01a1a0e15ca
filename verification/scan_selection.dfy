/** Picking, out of the remote service's job listing, the scan submitted
    under a given name: newest successful scan first, else newest one still
    in progress, else newest one of any status. */
module ScanSelection {
  import opened Wrappers
  import opened LexOrder

  const Success := "Success"
  const InProgress := "InProgress"

  /** One element of the listing's `data` array: a JSON object, of which the
      fields `id`, `name`, `status` and `created_at` are kept (each absent or
      a string), or any other JSON value. */
  datatype Entry =
    | Scan(id: Option<string>, name: Option<string>, status: Option<string>, createdAt: Option<string>)
    | OtherValue

  /** The `data` member of the listing. */
  datatype DataField = Absent | NotAList | Items(entries: seq<Entry>)

  /** The decoded listing: a JSON object (only its `data` member matters),
      or anything else the service may have sent. */
  datatype Listing = Object(data: DataField) | NonObject

  /** The sort key of `find_latest_by_name` (its nested `created_at`
      function, streamlit_app.py lines 174-175): the `created_at` field, with
      "" for a missing one and for an entry that is not an object. */
  function CreatedAt(e: Entry): (r: string) {
    if e.Scan? then e.createdAt.GetOr("") else ""
  }

  /** The two tests the selection filters by. */
  datatype Criterion = NameIs(target: string) | StatusIs(wanted: string)

  /** Whether `e` is an object whose field equals the wanted string exactly. */
  predicate Meets(e: Entry, c: Criterion) {
    && e.Scan?
    && match c
       case NameIs(t) => e.name == Some(t)
       case StatusIs(w) => e.status == Some(w)
  }

  predicate MeetsAll(e: Entry, cs: seq<Criterion>)
    decreases |cs|
  {
    |cs| == 0 || (Meets(e, cs[0]) && MeetsAll(e, cs[1..]))
  }

  /** A list comprehension `[e for e in s if test(e)]`. */
  function Filter(s: seq<Entry>, c: Criterion): (r: seq<Entry>)
    ensures |r| <= |s|
    ensures forall e :: e in r <==> e in s && Meets(e, c)
  {
    if s == [] then []
    else (if Meets(s[0], c) then [s[0]] else []) + Filter(s[1..], c)
  }

  /** Inserting `x` in front of the first element that is not newer than it,
      so that among equal keys earlier elements stay first. */
  function InsertNewestFirst(x: Entry, t: seq<Entry>): (r: seq<Entry>)
    ensures multiset(r) == multiset(t) + multiset{x}
  {
    if t == [] || LexLe(CreatedAt(t[0]), CreatedAt(x)) then [x] + t
    else
      assert t == [t[0]] + t[1..];
      [t[0]] + InsertNewestFirst(x, t[1..])
  }

  /** Python's `sorted(s, key=created_at, reverse=True)`: a stable sort on
      descending `created_at`. */
  function SortNewestFirst(s: seq<Entry>): (r: seq<Entry>)
    ensures multiset(r) == multiset(s)
    ensures |r| == |s|
  {
    if s == [] then []
    else
      assert s == [s[0]] + s[1..];
      InsertNewestFirst(s[0], SortNewestFirst(s[1..]))
  }

  /** `find_latest_by_name`. */
  function FindLatestByName(listing: Listing, target: string): (r: Option<Entry>)
    ensures r.Some? ==> Meets(r.value, NameIs(target))
    ensures r.Some? ==> listing.Object? && listing.data.Items? && r.value in listing.data.entries
    ensures r.None? <==>
      !(listing.Object? && listing.data.Items?
        && exists e :: e in listing.data.entries && Meets(e, NameIs(target)))
  {
    if !listing.Object? then None
    else match listing.data
      case Absent => None
      case NotAList => None
      case Items(scans) =>
        if scans == [] then None
        else
          var same := Filter(scans, NameIs(target));
          if same == [] then None
          else
            var success := Filter(same, StatusIs(Success));
            var inProgress := Filter(same, StatusIs(InProgress));
            if success != [] then Some(NewestOf(success))
            else if inProgress != [] then Some(NewestOf(inProgress))
            else Some(NewestOf(same))
  }

  /** `sorted(g, key=created_at, reverse=True)[0]`. */
  function NewestOf(g: seq<Entry>): (r: Entry)
    requires g != []
    ensures r in g
  {
    var sorted := SortNewestFirst(g);
    assert sorted[0] in multiset(sorted);
    sorted[0]
  }

  // ---------------------------------------------------------------------
  // What the selection means, stated over the listing itself.

  /** `s[i]` passes every test in `cs`, no entry passing them has a later
      `created_at`, and every entry before `i` that passes them has an
      earlier one: `s[i]` is the first of the newest. */
  ghost predicate FirstNewestAmong(s: seq<Entry>, cs: seq<Criterion>, i: int) {
    && 0 <= i < |s|
    && MeetsAll(s[i], cs)
    && (forall j :: 0 <= j < |s| && MeetsAll(s[j], cs) ==> LexLe(CreatedAt(s[j]), CreatedAt(s[i])))
    && (forall j :: 0 <= j < i && MeetsAll(s[j], cs) ==> LexLt(CreatedAt(s[j]), CreatedAt(s[i])))
  }

  /** The linear scan that keeps the first entry with the largest key: an
      independent definition of what the sort puts in front. */
  function FirstNewestIndex(s: seq<Entry>): (k: nat)
    requires s != []
    ensures FirstNewestAmong(s, [], k)
  {
    if |s| == 1 then LexLeReflexive(CreatedAt(s[0])); 0
    else
      var k := FirstNewestIndex(s[1..]) + 1;
      FirstNewestStep(s, k);
      if LexLe(CreatedAt(s[k]), CreatedAt(s[0])) then 0 else k
  }

  lemma FirstNewestStep(s: seq<Entry>, k: nat)
    requires |s| > 1 && 1 <= k && FirstNewestAmong(s[1..], [], k - 1)
    ensures k < |s|
    ensures LexLe(CreatedAt(s[k]), CreatedAt(s[0])) ==> FirstNewestAmong(s, [], 0)
    ensures !LexLe(CreatedAt(s[k]), CreatedAt(s[0])) ==> FirstNewestAmong(s, [], k)
  {
    assert s[k] == s[1..][k - 1];
    if LexLe(CreatedAt(s[k]), CreatedAt(s[0])) {
      forall j | 0 <= j < |s|
        ensures LexLe(CreatedAt(s[j]), CreatedAt(s[0]))
      {
        if j == 0 {
          LexLeReflexive(CreatedAt(s[0]));
        } else {
          assert s[j] == s[1..][j - 1];
          LexLeTransitive(CreatedAt(s[j]), CreatedAt(s[k]), CreatedAt(s[0]));
        }
      }
    } else {
      LexLeTotal(CreatedAt(s[k]), CreatedAt(s[0]));
      forall j | 0 < j < |s|
        ensures LexLe(CreatedAt(s[j]), CreatedAt(s[k]))
        ensures j < k ==> LexLt(CreatedAt(s[j]), CreatedAt(s[k]))
      {
        assert s[j] == s[1..][j - 1];
      }
    }
  }

  lemma InsertHead(x: Entry, t: seq<Entry>)
    ensures InsertNewestFirst(x, t)[0] ==
      if t == [] || LexLe(CreatedAt(t[0]), CreatedAt(x)) then x else t[0]
  {
  }

  /** The head of the stable descending sort is the first entry with the
      largest `created_at`. */
  lemma {:induction false} SortHeadIsFirstNewest(s: seq<Entry>)
    requires s != []
    ensures SortNewestFirst(s)[0] == s[FirstNewestIndex(s)]
  {
    var t := SortNewestFirst(s[1..]);
    InsertHead(s[0], t);
    if |s| > 1 {
      SortHeadIsFirstNewest(s[1..]);
      assert t[0] == s[1..][FirstNewestIndex(s[1..])];
    }
  }

  /** The sort does put newer entries first. */
  ghost predicate NewestFirst(t: seq<Entry>) {
    forall i, j :: 0 <= i < j < |t| ==> LexLe(CreatedAt(t[j]), CreatedAt(t[i]))
  }

  lemma {:induction false} InsertKeepsNewestFirst(x: Entry, t: seq<Entry>)
    requires NewestFirst(t)
    ensures NewestFirst(InsertNewestFirst(x, t))
    decreases |t|
  {
    if t == [] {
    } else if LexLe(CreatedAt(t[0]), CreatedAt(x)) {
      forall e | e in t
        ensures LexLe(CreatedAt(e), CreatedAt(x))
      {
        var m :| 0 <= m < |t| && t[m] == e;
        if m > 0 {
          LexLeTransitive(CreatedAt(e), CreatedAt(t[0]), CreatedAt(x));
        }
      }
      PrependNewest(x, t);
    } else {
      LexLeTotal(CreatedAt(t[0]), CreatedAt(x));
      InsertKeepsNewestFirst(x, t[1..]);
      var rest := InsertNewestFirst(x, t[1..]);
      forall e | e in rest
        ensures LexLe(CreatedAt(e), CreatedAt(t[0]))
      {
        assert e in multiset(rest);
        if e != x {
          assert e in t[1..];
          var m :| 0 <= m < |t[1..]| && t[1..][m] == e;
          assert t[m + 1] == e;
        }
      }
      PrependNewest(t[0], rest);
    }
  }

  /** Putting in front an entry at least as new as everything else keeps
      the order. */
  lemma PrependNewest(x: Entry, t: seq<Entry>)
    requires NewestFirst(t)
    requires forall e :: e in t ==> LexLe(CreatedAt(e), CreatedAt(x))
    ensures NewestFirst([x] + t)
  {
    var r := [x] + t;
    forall i, j | 0 <= i < j < |r|
      ensures LexLe(CreatedAt(r[j]), CreatedAt(r[i]))
    {
      assert r[j] == t[j - 1];
      if i > 0 {
        assert r[i] == t[i - 1];
      } else {
        assert r[j] in t;
      }
    }
  }

  lemma {:induction false} SortIsNewestFirst(s: seq<Entry>)
    ensures NewestFirst(SortNewestFirst(s))
  {
    if s != [] {
      SortIsNewestFirst(s[1..]);
      InsertKeepsNewestFirst(s[0], SortNewestFirst(s[1..]));
    }
  }

  // ---------------------------------------------------------------------
  // Carrying "first of the newest" from a filtered list back to the list it
  // was filtered from.

  lemma MeetsAllCons(e: Entry, c: Criterion, cs: seq<Criterion>)
    ensures MeetsAll(e, [c] + cs) <==> Meets(e, c) && MeetsAll(e, cs)
  {
    assert ([c] + cs)[1..] == cs;
  }

  lemma FilterCons(x: Entry, s: seq<Entry>, c: Criterion)
    ensures Filter([x] + s, c) == (if Meets(x, c) then [x] else []) + Filter(s, c)
  {
    assert ([x] + s)[1..] == s;
  }

  /** The `k`-th survivor of the filter sits at some position `i` of the
      original list, and the survivors before it are exactly those of the
      prefix up to `i`. */
  lemma {:induction false} FilterPosition(s: seq<Entry>, c: Criterion, k: nat)
    requires k < |Filter(s, c)|
    ensures exists i :: 0 <= i < |s| && s[i] == Filter(s, c)[k] && Filter(s[..i], c) == Filter(s, c)[..k]
    decreases |s|
  {
    var head := if Meets(s[0], c) then [s[0]] else [];
    var g' := Filter(s[1..], c);
    assert s == [s[0]] + s[1..];
    FilterCons(s[0], s[1..], c);
    assert Filter(s, c) == head + g';
    if Meets(s[0], c) && k == 0 {
      assert Filter(s[..0], c) == Filter(s, c)[..0];
    } else {
      var k' := k - |head|;
      FilterPosition(s[1..], c, k');
      var i' :| 0 <= i' < |s[1..]| && s[1..][i'] == g'[k'] && Filter(s[1..][..i'], c) == g'[..k'];
      PrefixStep(s, c, i', head, g', k, k');
    }
  }

  lemma PrefixStep(s: seq<Entry>, c: Criterion, i': nat, head: seq<Entry>, g': seq<Entry>, k: nat, k': nat)
    requires 0 <= i' < |s| - 1
    requires head == (if Meets(s[0], c) then [s[0]] else [])
    requires Filter(s, c) == head + g'
    requires k' == k - |head| && k' < |g'|
    requires s[1..][i'] == g'[k'] && Filter(s[1..][..i'], c) == g'[..k']
    ensures s[i' + 1] == Filter(s, c)[k] && Filter(s[..i' + 1], c) == Filter(s, c)[..k]
  {
    assert s[..i' + 1] == [s[0]] + s[1..][..i'];
    FilterCons(s[0], s[1..][..i'], c);
    assert (head + g')[..k] == head + g'[..k'];
  }

  lemma LiftFirstNewest(s: seq<Entry>, c: Criterion, cs: seq<Criterion>, k: nat)
    requires FirstNewestAmong(Filter(s, c), cs, k)
    ensures exists i :: FirstNewestAmong(s, [c] + cs, i) && s[i] == Filter(s, c)[k]
  {
    var g := Filter(s, c);
    FilterPosition(s, c, k);
    var i :| 0 <= i < |s| && s[i] == g[k] && Filter(s[..i], c) == g[..k];
    assert g[k] in g;
    MeetsAllCons(s[i], c, cs);
    forall j | 0 <= j < |s| && MeetsAll(s[j], [c] + cs)
      ensures LexLe(CreatedAt(s[j]), CreatedAt(s[i]))
      ensures j < i ==> LexLt(CreatedAt(s[j]), CreatedAt(s[i]))
    {
      MeetsAllCons(s[j], c, cs);
      LiftOne(s, c, cs, k, i, j);
    }
    assert FirstNewestAmong(s, [c] + cs, i);
  }

  lemma LiftOne(s: seq<Entry>, c: Criterion, cs: seq<Criterion>, k: nat, i: nat, j: nat)
    requires FirstNewestAmong(Filter(s, c), cs, k)
    requires i < |s| && s[i] == Filter(s, c)[k] && Filter(s[..i], c) == Filter(s, c)[..k]
    requires j < |s| && Meets(s[j], c) && MeetsAll(s[j], cs)
    ensures LexLe(CreatedAt(s[j]), CreatedAt(s[i]))
    ensures j < i ==> LexLt(CreatedAt(s[j]), CreatedAt(s[i]))
  {
    var g := Filter(s, c);
    assert s[j] in g;
    var m :| 0 <= m < |g| && g[m] == s[j];
    if j < i {
      assert s[..i][j] == s[j];
      assert s[j] in Filter(s[..i], c);
      var m' :| 0 <= m' < k && g[..k][m'] == s[j];
      assert g[m'] == s[j];
    }
  }

  /** The first of the newest is a single position. */
  lemma FirstNewestAmongUnique(s: seq<Entry>, cs: seq<Criterion>, i: int, j: int)
    requires FirstNewestAmong(s, cs, i) && FirstNewestAmong(s, cs, j)
    ensures i == j
  {
  }

  /** `NewestOf(g)` is the first of the newest in `g`. */
  lemma NewestOfIsFirstNewest(g: seq<Entry>)
    requires g != []
    ensures exists k :: FirstNewestAmong(g, [], k) && NewestOf(g) == g[k]
  {
    SortHeadIsFirstNewest(g);
    var k := FirstNewestIndex(g);
    assert FirstNewestAmong(g, [], k);
  }

  /** One filter, then the sort head, selects the first of the newest
      entries passing the filter's test. */
  lemma NewestOfFiltered(s: seq<Entry>, c: Criterion)
    requires Filter(s, c) != []
    ensures exists i :: FirstNewestAmong(s, [c], i) && NewestOf(Filter(s, c)) == s[i]
  {
    var g := Filter(s, c);
    NewestOfIsFirstNewest(g);
    var k :| FirstNewestAmong(g, [], k) && NewestOf(g) == g[k];
    LiftFirstNewest(s, c, [], k);
    assert [c] + [] == [c];
  }

  /** Two filters in a row, the first by name and the second by status,
      select the first of the newest entries passing both tests. */
  lemma NewestOfNameAndStatus(s: seq<Entry>, target: string, status: string)
    requires Filter(Filter(s, NameIs(target)), StatusIs(status)) != []
    ensures exists i :: FirstNewestAmong(s, [NameIs(target), StatusIs(status)], i)
                        && NewestOf(Filter(Filter(s, NameIs(target)), StatusIs(status))) == s[i]
  {
    var same := Filter(s, NameIs(target));
    NewestOfFiltered(same, StatusIs(status));
    var k :| FirstNewestAmong(same, [StatusIs(status)], k)
             && NewestOf(Filter(same, StatusIs(status))) == same[k];
    LiftFirstNewest(s, NameIs(target), [StatusIs(status)], k);
    assert [NameIs(target)] + [StatusIs(status)] == [NameIs(target), StatusIs(status)];
  }

  /** Whether some entry is named `target` and has the given status. */
  ghost predicate HasNamedWithStatus(s: seq<Entry>, target: string, status: string) {
    exists e :: e in s && Meets(e, NameIs(target)) && Meets(e, StatusIs(status))
  }

  lemma FilteredEmptyIff(s: seq<Entry>, target: string, status: string)
    ensures Filter(Filter(s, NameIs(target)), StatusIs(status)) != [] <==> HasNamedWithStatus(s, target, status)
  {
    var g := Filter(Filter(s, NameIs(target)), StatusIs(status));
    if g != [] {
      assert g[0] in g;
    }
  }

  // ---------------------------------------------------------------------
  // The three preferences of `find_latest_by_name`.

  /** How the result is drawn from the filtered lists, for a listing whose
      `data` is a list. */
  lemma FindLatestDrawsFrom(s: seq<Entry>, target: string)
    ensures var same := Filter(s, NameIs(target));
            var success := Filter(same, StatusIs(Success));
            var inProgress := Filter(same, StatusIs(InProgress));
            var r := FindLatestByName(Object(Items(s)), target);
            && (success != [] ==> r == Some(NewestOf(success)))
            && (success == [] && inProgress != [] ==> r == Some(NewestOf(inProgress)))
            && (success == [] && inProgress == [] && same != [] ==> r == Some(NewestOf(same)))
  {
    if s == [] {
      assert Filter(s, NameIs(target)) == [];
    }
  }


  /** When some scan with the name succeeded, the result is the first of the
      newest such scans. */
  lemma FindLatestPrefersSuccess(s: seq<Entry>, target: string)
    requires HasNamedWithStatus(s, target, Success)
    ensures exists i :: FirstNewestAmong(s, [NameIs(target), StatusIs(Success)], i)
                        && FindLatestByName(Object(Items(s)), target) == Some(s[i])
    ensures forall i :: FirstNewestAmong(s, [NameIs(target), StatusIs(Success)], i)
                        ==> FindLatestByName(Object(Items(s)), target) == Some(s[i])
  {
    FilteredEmptyIff(s, target, Success);
    FindLatestDrawsFrom(s, target);
    NewestOfNameAndStatus(s, target, Success);
    UniqueChoice(s, [NameIs(target), StatusIs(Success)], FindLatestByName(Object(Items(s)), target));
  }

  /** Otherwise, when some scan with the name is in progress, the result is
      the first of the newest such scans. */
  lemma FindLatestThenInProgress(s: seq<Entry>, target: string)
    requires !HasNamedWithStatus(s, target, Success)
    requires HasNamedWithStatus(s, target, InProgress)
    ensures exists i :: FirstNewestAmong(s, [NameIs(target), StatusIs(InProgress)], i)
                        && FindLatestByName(Object(Items(s)), target) == Some(s[i])
    ensures forall i :: FirstNewestAmong(s, [NameIs(target), StatusIs(InProgress)], i)
                        ==> FindLatestByName(Object(Items(s)), target) == Some(s[i])
  {
    FilteredEmptyIff(s, target, Success);
    FilteredEmptyIff(s, target, InProgress);
    FindLatestDrawsFrom(s, target);
    NewestOfNameAndStatus(s, target, InProgress);
    UniqueChoice(s, [NameIs(target), StatusIs(InProgress)], FindLatestByName(Object(Items(s)), target));
  }

  /** Otherwise the result is the first of the newest scans with the name,
      whatever their status. */
  lemma FindLatestOtherwiseNewest(s: seq<Entry>, target: string)
    requires !HasNamedWithStatus(s, target, Success)
    requires !HasNamedWithStatus(s, target, InProgress)
    requires exists e :: e in s && Meets(e, NameIs(target))
    ensures exists i :: FirstNewestAmong(s, [NameIs(target)], i)
                        && FindLatestByName(Object(Items(s)), target) == Some(s[i])
    ensures forall i :: FirstNewestAmong(s, [NameIs(target)], i)
                        ==> FindLatestByName(Object(Items(s)), target) == Some(s[i])
  {
    FilteredEmptyIff(s, target, Success);
    FilteredEmptyIff(s, target, InProgress);
    FindLatestDrawsFrom(s, target);
    var e :| e in s && Meets(e, NameIs(target));
    assert e in Filter(s, NameIs(target));
    NewestOfFiltered(s, NameIs(target));
    UniqueChoice(s, [NameIs(target)], FindLatestByName(Object(Items(s)), target));
  }

  lemma UniqueChoice(s: seq<Entry>, cs: seq<Criterion>, r: Option<Entry>)
    requires exists i :: FirstNewestAmong(s, cs, i) && r == Some(s[i])
    ensures forall i :: FirstNewestAmong(s, cs, i) ==> r == Some(s[i])
  {
    var i :| FirstNewestAmong(s, cs, i) && r == Some(s[i]);
    forall j | FirstNewestAmong(s, cs, j)
      ensures r == Some(s[j])
    {
      FirstNewestAmongUnique(s, cs, i, j);
    }
  }

  /** An older successful scan outranks a newer one still in progress. */
  lemma SuccessOutranksNewerInProgress()
    ensures
      var older := Scan(Some("1"), Some("Scan A"), Some(Success), Some("2024-01-01"));
      var newer := Scan(Some("2"), Some("Scan A"), Some(InProgress), Some("2024-01-02"));
      FindLatestByName(Object(Items([older, newer])), "Scan A") == Some(older)
  {
    var older := Scan(Some("1"), Some("Scan A"), Some(Success), Some("2024-01-01"));
    var newer := Scan(Some("2"), Some("Scan A"), Some(InProgress), Some("2024-01-02"));
    var s := [older, newer];
    FilterCons(older, [newer], NameIs("Scan A"));
    FilterCons(newer, [], NameIs("Scan A"));
    assert Filter(s, NameIs("Scan A")) == s;
    FilterCons(older, [newer], StatusIs(Success));
    FilterCons(newer, [], StatusIs(Success));
    assert Filter(s, StatusIs(Success)) == [older];
    assert SortNewestFirst([older]) == [older];
    FindLatestDrawsFrom(s, "Scan A");
  }
}
