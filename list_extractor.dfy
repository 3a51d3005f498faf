/**
 * `get_wiki_ids1` after the page has been fetched and parsed: the ordered
 * (display text, href) records of a list page are cut to the window between
 * a start entry and an end entry, rank headers and extinct taxa are dropped,
 * records are keyed by their text (a later href overwrites an earlier one)
 * and the surviving hrefs are normalised into a set of page identifiers.
 */
module ListExtractor {
  import opened Wrappers
  import opened Text
  import opened Href

  /** One record of the list collector: the list item's text (already lower-cased) and the anchor's href. */
  datatype Link = Link(text: string, href: string)

  /**
   * Why a lookup failed. In Python both are the `StopIteration` raised by
   * `next` without a default; the start boundary is looked up first.
   */
  datatype LookupError = StartNotFound | EndNotFound

  /**
   * `next(i for i, t in enumerate(links) if t[0] == text)`: the index of the
   * first record with exactly this text, or `None` where Python raises.
   */
  function FirstIndex(links: seq<Link>, text: string): (r: Option<nat>)
    ensures r.Some? ==> r.value < |links| && links[r.value].text == text
    ensures r.Some? ==> forall j :: 0 <= j < r.value ==> links[j].text != text
    ensures r.None? <==> forall j :: 0 <= j < |links| ==> links[j].text != text
  {
    if links == [] then None
    else if links[0].text == text then Some(0)
    else match FirstIndex(links[1..], text)
      case None => None
      case Some(i) => Some(i + 1)
  }

  /** `links[lo:hi + 1]`: the records from index `lo` to index `hi`, both included; empty when `hi < lo`. */
  function Window(links: seq<Link>, lo: nat, hi: nat): (w: seq<Link>)
    requires hi < |links|
    ensures |w| == if lo <= hi then hi - lo + 1 else 0
    ensures forall i :: 0 <= i < |w| ==> w[i] == links[lo + i]
  {
    if lo <= hi then links[lo..hi + 1] else []
  }

  /**
   * The text names a taxonomic rank or an extinct taxon: it contains
   * `genus `, `family `, `order `, `clade `, `tribe `, `extinct` or the dagger.
   */
  predicate HasRankMarker(text: string)
  {
    Contains(text, "genus ") || Contains(text, "family ") || Contains(text, "order ") ||
    Contains(text, "clade ") || Contains(text, "tribe ") || Contains(text, "extinct") ||
    Dagger in text
  }

  /** The list comprehension that keeps, in order, the records without a rank marker. */
  function SpeciesOnly(links: seq<Link>): (r: seq<Link>)
    ensures |r| <= |links|
    ensures forall l :: l in r <==> l in links && !HasRankMarker(l.text)
  {
    if links == [] then []
    else
      var last := links[|links| - 1];
      SpeciesOnly(links[..|links| - 1]) + (if HasRankMarker(last.text) then [] else [last])
  }

  /**
   * The comprehension filters piece by piece: filtering a concatenation is
   * concatenating the filtered parts, so the survivors keep their order and
   * their repetitions.
   */
  lemma {:induction false} SpeciesOnlyAppend(a: seq<Link>, b: seq<Link>)
    ensures SpeciesOnly(a + b) == SpeciesOnly(a) + SpeciesOnly(b)
    decreases |b|
  {
    if b == [] {
      assert a + b == a;
    } else {
      var init, last := b[..|b| - 1], b[|b| - 1];
      assert (a + b)[..|a + b| - 1] == a + init;
      assert (a + b)[|a + b| - 1] == last;
      SpeciesOnlyAppend(a, init);
    }
  }

  /** A single record survives exactly when its text carries no rank marker. */
  lemma SpeciesOnlySingle(l: Link)
    ensures SpeciesOnly([l]) == if HasRankMarker(l.text) then [] else [l]
  {
    assert [l][..0] == [];
  }

  /** Record `i` is the last one in `links` with its text. */
  ghost predicate IsLastWithText(links: seq<Link>, i: int)
  {
    0 <= i < |links| && forall j :: i < j < |links| ==> links[j].text != links[i].text
  }

  /**
   * `{link[0]: link[1] for link in links}`: every text of `links`, mapped to
   * the href of a record carrying it (which one: `HrefByTextLastWins`).
   */
  function HrefByText(links: seq<Link>): (m: map<string, string>)
    ensures forall k :: k in m <==> exists i :: 0 <= i < |links| && links[i].text == k
  {
    if links == [] then map[]
    else
      var init, last := links[..|links| - 1], links[|links| - 1];
      assert forall i :: 0 <= i < |init| ==> init[i] == links[i];
      HrefByText(init)[last.text := last.href]
  }

  /** A later record overwrites an earlier one: each text maps to the href of its last record. */
  lemma {:induction false} HrefByTextLastWins(links: seq<Link>, i: int)
    requires IsLastWithText(links, i)
    ensures links[i].text in HrefByText(links)
    ensures HrefByText(links)[links[i].text] == links[i].href
    decreases |links|
  {
    var init := links[..|links| - 1];
    if i < |links| - 1 {
      assert forall j :: 0 <= j < |init| ==> init[j] == links[j];
      HrefByTextLastWins(init, i);
    }
  }

  /**
   * `get_wiki_ids1` on the records the collector produced: fails when the
   * start or the end text is missing, otherwise yields the page identifiers
   * of the window's species entries.
   */
  function GetWikiIds1(links: seq<Link>, start: string, end: string): (r: Result<set<string>, LookupError>)
    ensures r == Failure(StartNotFound) <==> forall i :: 0 <= i < |links| ==> links[i].text != Lower(start)
    ensures r == Failure(EndNotFound) <==>
      (exists i :: 0 <= i < |links| && links[i].text == Lower(start)) &&
      (forall i :: 0 <= i < |links| ==> links[i].text != Lower(end))
  {
    match FirstIndex(links, Lower(start))
    case None => Failure(StartNotFound)
    case Some(lo) =>
      match FirstIndex(links, Lower(end))
      case None => Failure(EndNotFound)
      case Some(hi) => Success(WindowIds(links, lo, hi))
  }

  /**
   * Lines 51-57 of `get_wiki_ids1`: slice to the window, drop rank and
   * extinct entries, key by text, normalise the hrefs that survive.
   */
  function WindowIds(links: seq<Link>, lo: nat, hi: nat): (ids: set<string>)
    requires hi < |links|
    ensures hi < lo ==> ids == {}
  {
    IdSet(HrefByText(SpeciesOnly(Window(links, lo, hi))).Values)
  }

  /**
   * Record `i` decides an identifier of the window [lo, hi]: it lies in the
   * window, carries no rank marker, and no later record of the window has
   * the same text.
   */
  ghost predicate Contributes(links: seq<Link>, lo: nat, hi: nat, i: int)
  {
    lo <= i <= hi && i < |links| && !HasRankMarker(links[i].text) &&
    forall j :: i < j <= hi && j < |links| ==> links[j].text != links[i].text
  }

  /** Every record has a last record with the same text, at or after it. */
  lemma LastOccurrence(links: seq<Link>, i: int) returns (j: int)
    requires 0 <= i < |links|
    ensures i <= j && IsLastWithText(links, j) && links[j].text == links[i].text
    decreases |links| - i
  {
    if IsLastWithText(links, i) {
      j := i;
    } else {
      var n :| i < n < |links| && links[n].text == links[i].text;
      j := LastOccurrence(links, n);
    }
  }

  /** A text survives the filter exactly when it carries no rank marker. */
  lemma SpeciesKeys(w: seq<Link>, k: string)
    ensures k in HrefByText(SpeciesOnly(w)) <==> k in HrefByText(w) && !HasRankMarker(k)
  {
    var s := SpeciesOnly(w);
    if k in HrefByText(s) {
      var i :| 0 <= i < |s| && s[i].text == k;
      assert s[i] in s;
      var j :| 0 <= j < |w| && w[j] == s[i];
    }
    if k in HrefByText(w) && !HasRankMarker(k) {
      var j :| 0 <= j < |w| && w[j].text == k;
      assert w[j] in w;
      var i :| 0 <= i < |s| && s[i] == w[j];
    }
  }

  /** Appending a record updates the mapping at its text with its href. */
  lemma HrefByTextSnoc(links: seq<Link>, l: Link)
    ensures HrefByText(links + [l]) == HrefByText(links)[l.text := l.href]
  {
    assert (links + [l])[..|links|] == links;
  }

  /**
   * Filtering by text and then keying by text is keying by text and then
   * dropping the marked keys: the filter never removes an overwriting record
   * without also removing every record it overwrites.
   */
  lemma {:induction false} SpeciesValues(w: seq<Link>, k: string)
    requires k in HrefByText(SpeciesOnly(w))
    ensures k in HrefByText(w) && HrefByText(SpeciesOnly(w))[k] == HrefByText(w)[k]
    decreases |w|
  {
    var init, last := w[..|w| - 1], w[|w| - 1];
    var kept := SpeciesOnly(init);
    ghost var all, allInit := HrefByText(w), HrefByText(init);
    assert all == allInit[last.text := last.href];
    if HasRankMarker(last.text) {
      assert SpeciesOnly(w) == kept;
      SpeciesValues(init, k);
    } else {
      assert SpeciesOnly(w) == kept + [last];
      HrefByTextSnoc(kept, last);
      if k != last.text {
        SpeciesValues(init, k);
      }
    }
  }



  /** An identifier of the window is the normalised href of an unmarked text's last record. */
  lemma WindowIdKey(w: seq<Link>, id: string) returns (i: int)
    requires id in IdSet(HrefByText(SpeciesOnly(w)).Values)
    ensures IsLastWithText(w, i) && !HasRankMarker(w[i].text) && Normalize(w[i].href) == id
  {
    var m := HrefByText(SpeciesOnly(w));
    var h :| h in m.Values && Normalize(h) == id;
    var k :| k in m && m[k] == h;
    SpeciesKeys(w, k);
    SpeciesValues(w, k);
    var i0 :| 0 <= i0 < |w| && w[i0].text == k;
    i := LastOccurrence(w, i0);
    HrefByTextLastWins(w, i);
  }

  /** Every identifier of the window comes from a contributing record. */
  lemma WindowIdSound(links: seq<Link>, lo: nat, hi: nat, id: string)
    requires hi < |links| && id in WindowIds(links, lo, hi)
    ensures exists i :: Contributes(links, lo, hi, i) && Normalize(links[i].href) == id
  {
    var w := Window(links, lo, hi);
    var i := WindowIdKey(w, id);
    assert links[lo + i] == w[i];
    assert Contributes(links, lo, hi, lo + i) by {
      forall j | lo + i < j <= hi && j < |links| ensures links[j].text != links[lo + i].text {
        assert links[j] == w[j - lo];
      }
    }
  }

  /** Every contributing record of the window gives an identifier. */
  lemma WindowIdComplete(links: seq<Link>, lo: nat, hi: nat, i: int)
    requires hi < |links| && Contributes(links, lo, hi, i)
    ensures Normalize(links[i].href) in WindowIds(links, lo, hi)
  {
    var w := Window(links, lo, hi);
    var m := HrefByText(SpeciesOnly(w));
    var k := links[i].text;
    assert w[i - lo] == links[i];
    assert IsLastWithText(w, i - lo) by {
      forall j | i - lo < j < |w| ensures w[j].text != k {
        assert w[j] == links[lo + j];
      }
    }
    HrefByTextLastWins(w, i - lo);
    SpeciesKeys(w, k);
    SpeciesValues(w, k);
    assert m[k] in m.Values;
  }

  /**
   * The identifiers of a successful call are exactly the normalised hrefs of
   * the contributing records of the window between the first start match
   * and the first end match.
   */
  lemma ListIdsCharacterised(links: seq<Link>, start: string, end: string, lo: nat, hi: nat)
    requires FirstIndex(links, Lower(start)) == Some(lo)
    requires FirstIndex(links, Lower(end)) == Some(hi)
    ensures GetWikiIds1(links, start, end).Success?
    ensures forall id :: id in GetWikiIds1(links, start, end).value <==>
      exists i :: Contributes(links, lo, hi, i) && Normalize(links[i].href) == id
  {
    var ids := GetWikiIds1(links, start, end).value;
    assert ids == WindowIds(links, lo, hi);
    forall id | id in ids ensures exists i :: Contributes(links, lo, hi, i) && Normalize(links[i].href) == id {
      WindowIdSound(links, lo, hi, id);
    }
    forall id | exists i :: Contributes(links, lo, hi, i) && Normalize(links[i].href) == id ensures id in ids {
      var i :| Contributes(links, lo, hi, i) && Normalize(links[i].href) == id;
      WindowIdComplete(links, lo, hi, i);
    }
  }

  /** When the end entry comes first, the window is empty and so is the result. */
  lemma EmptyWhenEndBeforeStart(links: seq<Link>, start: string, end: string, lo: nat, hi: nat)
    requires FirstIndex(links, Lower(start)) == Some(lo)
    requires FirstIndex(links, Lower(end)) == Some(hi)
    requires hi < lo
    ensures GetWikiIds1(links, start, end) == Success({})
  {
    ListIdsCharacterised(links, start, end, lo, hi);
  }

  /** The records of `links` with record `i`'s href replaced by `h`. */
  function WithHref(links: seq<Link>, i: nat, h: string): (r: seq<Link>)
    requires i < |links|
    ensures |r| == |links| && r[i] == Link(links[i].text, h)
    ensures forall j :: 0 <= j < |links| && j != i ==> r[j] == links[j]
  {
    links[i := Link(links[i].text, h)]
  }

  /** Two record sequences with the same texts, index by index. */
  ghost predicate SameTexts(a: seq<Link>, b: seq<Link>)
  {
    |a| == |b| && forall j :: 0 <= j < |a| ==> a[j].text == b[j].text
  }

  /** The boundary lookup reads only the texts. */
  lemma {:induction false} FirstIndexReadsTexts(a: seq<Link>, b: seq<Link>, text: string)
    requires SameTexts(a, b)
    ensures FirstIndex(a, text) == FirstIndex(b, text)
    decreases |a|
  {
    if a != [] {
      FirstIndexReadsTexts(a[1..], b[1..], text);
    }
  }

  /** An identifier moves from one sequence to another when only a non-contributing href differs. */
  lemma WindowIdTransfer(a: seq<Link>, b: seq<Link>, lo: nat, hi: nat, i: nat, id: string)
    requires hi < |a| && SameTexts(a, b) && i < |a| && !Contributes(a, lo, hi, i)
    requires forall j :: 0 <= j < |a| && j != i ==> a[j] == b[j]
    requires id in WindowIds(a, lo, hi)
    ensures id in WindowIds(b, lo, hi)
  {
    WindowIdSound(a, lo, hi, id);
    var j :| Contributes(a, lo, hi, j) && Normalize(a[j].href) == id;
    assert a[j] == b[j];
    assert Contributes(b, lo, hi, j) by {
      forall n | j < n <= hi && n < |b| ensures b[n].text != b[j].text {
        assert a[n].text == b[n].text;
      }
    }
    WindowIdComplete(b, lo, hi, j);
  }

  /** Changing the href of a non-contributing record leaves the window's identifiers unchanged. */
  lemma WindowIdsIgnoreHref(links: seq<Link>, lo: nat, hi: nat, i: nat, h: string)
    requires hi < |links| && i < |links| && !Contributes(links, lo, hi, i)
    ensures WindowIds(WithHref(links, i, h), lo, hi) == WindowIds(links, lo, hi)
  {
    var links' := WithHref(links, i, h);
    assert SameTexts(links, links') && SameTexts(links', links);
    forall id | id in WindowIds(links', lo, hi) ensures id in WindowIds(links, lo, hi) {
      WindowIdTransfer(links', links, lo, hi, i, id);
    }
    forall id | id in WindowIds(links, lo, hi) ensures id in WindowIds(links', lo, hi) {
      WindowIdTransfer(links, links', lo, hi, i, id);
    }
  }

  /**
   * The href of a record that does not contribute never reaches the result:
   * replacing it by any other href leaves the outcome unchanged.
   */
  lemma NonContributingHrefIgnored(links: seq<Link>, start: string, end: string, i: nat, h: string)
    requires i < |links|
    requires forall lo: nat, hi: nat ::
      FirstIndex(links, Lower(start)) == Some(lo) && FirstIndex(links, Lower(end)) == Some(hi) ==>
      !Contributes(links, lo, hi, i)
    ensures GetWikiIds1(WithHref(links, i, h), start, end) == GetWikiIds1(links, start, end)
  {
    var links' := WithHref(links, i, h);
    var s, e := Lower(start), Lower(end);
    assert SameTexts(links', links);
    FirstIndexReadsTexts(links', links, s);
    FirstIndexReadsTexts(links', links, e);
    if FirstIndex(links, s).Some? && FirstIndex(links, e).Some? {
      var lo, hi := FirstIndex(links, s).value, FirstIndex(links, e).value;
      WindowIdsIgnoreHref(links, lo, hi, i, h);
    }
  }

  /**
   * The href of a record outside [first start match, first end match] cannot
   * affect the result. Its text can, since it may be a boundary.
   */
  lemma OutsideWindowIgnored(links: seq<Link>, start: string, end: string, lo: nat, hi: nat, i: nat, h: string)
    requires FirstIndex(links, Lower(start)) == Some(lo)
    requires FirstIndex(links, Lower(end)) == Some(hi)
    requires i < |links| && (i < lo || hi < i)
    ensures GetWikiIds1(WithHref(links, i, h), start, end) == GetWikiIds1(links, start, end)
  {
    NonContributingHrefIgnored(links, start, end, i, h);
  }

  /**
   * The href of a record whose text carries a rank or extinction marker
   * cannot affect the result, even inside the window. Its text can, since it
   * may be a boundary.
   */
  lemma RankMarkedIgnored(links: seq<Link>, start: string, end: string, i: nat, h: string)
    requires i < |links| && HasRankMarker(links[i].text)
    ensures GetWikiIds1(WithHref(links, i, h), start, end) == GetWikiIds1(links, start, end)
  {
    NonContributingHrefIgnored(links, start, end, i, h);
  }

  /** Of several window records sharing a text, only the last one's href counts: an earlier one is overwritten. */
  lemma EarlierSameTextIgnored(links: seq<Link>, start: string, end: string, lo: nat, hi: nat, i: nat, j: nat, h: string)
    requires FirstIndex(links, Lower(start)) == Some(lo)
    requires FirstIndex(links, Lower(end)) == Some(hi)
    requires i < j <= hi && links[j].text == links[i].text
    ensures GetWikiIds1(WithHref(links, i, h), start, end) == GetWikiIds1(links, start, end)
  {
    NonContributingHrefIgnored(links, start, end, i, h);
  }

  /** The href of the last unmarked window record with a given text always reaches the result, normalised. */
  lemma LastHrefReachesResult(links: seq<Link>, start: string, end: string, lo: nat, hi: nat, i: nat)
    requires FirstIndex(links, Lower(start)) == Some(lo)
    requires FirstIndex(links, Lower(end)) == Some(hi)
    requires Contributes(links, lo, hi, i)
    ensures GetWikiIds1(links, start, end).Success?
    ensures Normalize(links[i].href) in GetWikiIds1(links, start, end).value
  {
    ListIdsCharacterised(links, start, end, lo, hi);
  }
}
