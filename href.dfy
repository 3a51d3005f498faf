/**
 * The identifier normalisation shared by both extractors: an href such as
 * `/wiki/Canis_lupus#Taxonomy` becomes the page identifier `Canis_lupus`, by
 * `href.replace('/wiki/', '').replace('#Taxonomy', '')`, and the identifiers
 * are collected into a set.
 */
module Href {
  import opened Text

  /** The internal-link prefix every scraped href starts with. */
  const WikiPrefix: string := "/wiki/"

  /** The section anchor that some hrefs point to. */
  const TaxonomyAnchor: string := "#Taxonomy"

  /**
   * The page identifier of an href: every occurrence of `/wiki/` is deleted,
   * then every occurrence of `#Taxonomy` in what is left.
   */
  function Normalize(href: string): (id: string)
    ensures |id| <= |href|
    ensures !Contains(href, WikiPrefix) && !Contains(href, TaxonomyAnchor) ==> id == href
  {
    RemoveAll(RemoveAll(href, WikiPrefix), TaxonomyAnchor)
  }

  /** `set([normalise(h) for h in hrefs])`: the identifiers, duplicates collapsed. */
  function IdSet(hrefs: set<string>): (ids: set<string>)
    ensures forall h :: h in hrefs ==> Normalize(h) in ids
    ensures forall id :: id in ids ==> exists h :: h in hrefs && Normalize(h) == id
    ensures |ids| <= |hrefs|
  {
    ImageNoLarger(hrefs);
    set h | h in hrefs :: Normalize(h)
  }

  /** Normalising a set of hrefs never yields more identifiers than there are hrefs. */
  lemma {:induction false} ImageNoLarger(hrefs: set<string>)
    ensures |set h | h in hrefs :: Normalize(h)| <= |hrefs|
    decreases |hrefs|
  {
    if hrefs != {} {
      var x :| x in hrefs;
      var rest := hrefs - {x};
      ImageNoLarger(rest);
      var image, restImage := set h | h in hrefs :: Normalize(h), set h | h in rest :: Normalize(h);
      assert image == restImage + {Normalize(x)};
    }
  }

  /** Two distinct hrefs with one identifier collapse: there are fewer identifiers than hrefs. */
  lemma IdSetCollapses(hrefs: set<string>, h1: string, h2: string)
    requires h1 in hrefs && h2 in hrefs && h1 != h2 && Normalize(h1) == Normalize(h2)
    ensures |IdSet(hrefs)| < |hrefs|
  {
    var rest := hrefs - {h1};
    assert IdSet(hrefs) == IdSet(rest) by {
      forall id | id in IdSet(hrefs) ensures id in IdSet(rest) {
        var h :| h in hrefs && Normalize(h) == id;
        if h == h1 {
          assert Normalize(h2) == id;
        }
      }
    }
  }

  /** `/wiki/<s>` names page `s` when `s` holds neither the prefix nor the anchor. */
  lemma NormalizePlainLink(s: string)
    requires !Contains(s, WikiPrefix) && !Contains(s, TaxonomyAnchor)
    ensures Normalize(WikiPrefix + s) == s
  {
    LeadingPatternRemoved(WikiPrefix, s);
  }

  /** In `/wiki/<s>#Taxonomy` only the leading `/wiki/` is an occurrence of the prefix. */
  lemma PrefixRemovedFromTaxonomyLink(s: string)
    requires !Contains(s, WikiPrefix)
    ensures RemoveAll(WikiPrefix + (s + TaxonomyAnchor), WikiPrefix) == s + TaxonomyAnchor
  {
    MissingCharNotContained(TaxonomyAnchor, WikiPrefix, '/');
    NoOccurrenceAcrossSeam(s, TaxonomyAnchor, WikiPrefix);
    LeadingPatternRemoved(WikiPrefix, s + TaxonomyAnchor);
  }

  /** The anchor's first character, `#`, does not recur inside it. */
  lemma AnchorStartsOnce()
    ensures TaxonomyAnchor[0] !in TaxonomyAnchor[1..]
  {
    assert TaxonomyAnchor[1..] == "Taxonomy";
  }

  /** `/wiki/<s>#Taxonomy` names page `s` when `s` holds neither the prefix nor the anchor. */
  lemma NormalizeTaxonomyLink(s: string)
    requires !Contains(s, WikiPrefix) && !Contains(s, TaxonomyAnchor)
    ensures Normalize(WikiPrefix + s + TaxonomyAnchor) == s
  {
    var tail := s + TaxonomyAnchor;
    assert WikiPrefix + s + TaxonomyAnchor == WikiPrefix + tail;
    PrefixRemovedFromTaxonomyLink(s);
    AnchorStartsOnce();
    TrailingPatternRemoved(s, TaxonomyAnchor);
  }

  /** The worked example: `/wiki/Canis_lupus#Taxonomy` and `/wiki/Canis_lupus` both give `Canis_lupus`. */
  lemma NormalizeCanisLupus(name: string)
    requires name == "Canis_lupus"
    ensures Normalize(WikiPrefix + name + TaxonomyAnchor) == name
    ensures Normalize(WikiPrefix + name) == name
  {
    MissingCharNotContained(name, WikiPrefix, '/');
    MissingCharNotContained(name, TaxonomyAnchor, '#');
    NormalizePlainLink(name);
    NormalizeTaxonomyLink(name);
  }

  /**
   * `replace` deletes every occurrence of the prefix, not only a leading
   * one: `/wiki/<a>/wiki/<b>` names `<a><b>`.
   */
  lemma NormalizeDeletesInnerPrefix(a: string, b: string)
    requires '/' !in a && '#' !in a && '/' !in b && '#' !in b
    ensures Normalize(WikiPrefix + a + WikiPrefix + b) == a + b
  {
    assert WikiPrefix + a + WikiPrefix + b == WikiPrefix + (a + (WikiPrefix + b));
    LeadingPatternRemoved(WikiPrefix, a + (WikiPrefix + b));
    assert WikiPrefix[0] == '/';
    ForeignFrontKept(a, WikiPrefix + b, WikiPrefix);
    LeadingPatternRemoved(WikiPrefix, b);
    MissingCharNotContained(b, WikiPrefix, '/');
    MissingCharNotContained(a + b, TaxonomyAnchor, '#');
  }

  /**
   * `replace` deletes every occurrence of the anchor, not only a trailing
   * one: `/wiki/<a>#Taxonomy<b>` names `<a><b>`.
   */
  lemma NormalizeDeletesInnerAnchor(a: string, b: string)
    requires '/' !in a && '#' !in a && '/' !in b && '#' !in b
    ensures Normalize(WikiPrefix + a + TaxonomyAnchor + b) == a + b
  {
    var rest := a + (TaxonomyAnchor + b);
    assert WikiPrefix + a + TaxonomyAnchor + b == WikiPrefix + rest;
    LeadingPatternRemoved(WikiPrefix, rest);
    assert '/' !in TaxonomyAnchor;
    MissingCharNotContained(rest, WikiPrefix, '/');
    assert TaxonomyAnchor[0] == '#';
    ForeignFrontKept(a, TaxonomyAnchor + b, TaxonomyAnchor);
    LeadingPatternRemoved(TaxonomyAnchor, b);
    MissingCharNotContained(b, TaxonomyAnchor, '#');
  }

  /**
   * Deduplication happens after normalisation: `/wiki/<s>` and
   * `/wiki/<s>#Taxonomy` give one identifier, not two.
   */
  lemma IdSetMergesTaxonomyLinks(s: string)
    requires !Contains(s, WikiPrefix) && !Contains(s, TaxonomyAnchor)
    ensures IdSet({WikiPrefix + s, WikiPrefix + s + TaxonomyAnchor}) == {s}
  {
    NormalizePlainLink(s);
    NormalizeTaxonomyLink(s);
  }
}
