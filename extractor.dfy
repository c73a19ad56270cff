/**
 * The callback the API route runs inside the rendered page: it reads the
 * title, price, description, specification table and image URLs out of the
 * document with ordered selector fallbacks. The recursive functions say what
 * each field is; the methods compute it the way the callback does, with
 * loops that break on the first success, and are proved to agree.
 */
module Extractor {
  import opened Wrappers
  import opened Text
  import opened Dom
  import opened OrderedMap

  const HeadingGroup: set<Selector> := {"h1"}

  const PriceSelectors: seq<Selector> :=
    [".price", "[data-testid=\"price\"]", ".product-price", ".price-box", "[itemprop=\"price\"]"]

  const DescriptionSelectors: seq<Selector> :=
    [".product-description", "[itemprop=\"description\"]", ".description", "#description"]

  const SpecSelectors: seq<Selector> :=
    [".specifications", ".product-specs", ".tech-specs", ".product-attributes", "[data-testid=\"specifications\"]"]

  const RowGroup: set<Selector> := {"tr", ".spec-row", ".attribute-row"}
  const LabelGroup: set<Selector> := {"th", ".label", ".spec-name"}
  const ValueGroup: set<Selector> := {"td", ".value", ".spec-value"}

  const ProductImageGroup: set<Selector> :=
    {"img.product-image", ".product-gallery img", "[data-testid=\"product-image\"]"}
  const ImgGroup: set<Selector> := {"img"}

  /** Fallback images must be wider than this many pixels. */
  const MinFallbackWidth := 200

  /** What the callback returns; `price` and `description` are absent when no selector found them. */
  datatype ProductInfo = ProductInfo(
    title: string,
    price: Option<string>,
    description: Option<string>,
    specifications: Entries,
    images: seq<string>)

  // ---------------------------------------------------------------- text fields

  /** `el?.textContent?.trim()`, with a missing element or text read as the empty string. */
  function TrimmedText(el: Option<Element>): string {
    if el.Some? && el.value.text.Some? then Trim(el.value.text.value) else ""
  }

  /** `document.querySelector('h1')?.textContent?.trim() || ''`. */
  function Title(page: seq<Element>): string {
    TrimmedText(QuerySelector(page, HeadingGroup))
  }

  /** The title is the trimmed text of the first `h1`, and empty when there is none or its text is blank. */
  lemma TitleOfFirstHeading(page: seq<Element>, i: int)
    requires IsFirstMatch(page, HeadingGroup, i)
    ensures Title(page) == if page[i].text.Some? then Trim(page[i].text.value) else ""
    ensures Title(page) == "" <==> page[i].text.None? || AllWhitespace(page[i].text.value)
  {
    QuerySelectorAtFirstMatch(page, HeadingGroup, i);
  }

  lemma TitleWithoutHeading(page: seq<Element>)
    requires forall i :: 0 <= i < |page| ==> !Matches(page[i], HeadingGroup)
    ensures Title(page) == ""
  {
  }

  /** `if (el && el.textContent)`: the first element for `sel` exists and its raw text is non-empty. */
  predicate Wins(page: seq<Element>, sel: Selector) {
    var el := QuerySelector(page, {sel});
    el.Some? && el.value.text.Some? && el.value.text.value != ""
  }

  /** The value a winning selector stores: its element's text, trimmed. */
  function WinningText(page: seq<Element>, sel: Selector): string
    requires Wins(page, sel)
  {
    Trim(QuerySelector(page, {sel}).value.text.value)
  }

  /** The price and description rule: the first selector in list order that wins supplies the value. */
  function FirstText(page: seq<Element>, selectors: seq<Selector>): Option<string>
    decreases |selectors|
  {
    if selectors == [] then None
    else if Wins(page, selectors[0]) then Some(WinningText(page, selectors[0]))
    else FirstText(page, selectors[1..])
  }

  /** Selector `i` is the first of the list that wins. */
  predicate IsWinner(page: seq<Element>, selectors: seq<Selector>, i: int) {
    0 <= i < |selectors| && Wins(page, selectors[i])
    && forall j :: 0 <= j < i ==> !Wins(page, selectors[j])
  }

  /** When selector `i` is the first to win, its trimmed text is the value, whatever the later selectors hold. */
  lemma {:induction false} FirstTextWinner(page: seq<Element>, selectors: seq<Selector>, i: int)
    requires IsWinner(page, selectors, i)
    ensures FirstText(page, selectors) == Some(WinningText(page, selectors[i]))
    decreases i
  {
    if i > 0 {
      assert !Wins(page, selectors[0]);
      assert IsWinner(page, selectors[1..], i - 1) by {
        forall j | 0 <= j < i - 1 ensures !Wins(page, selectors[1..][j]) {
          assert selectors[1..][j] == selectors[j + 1];
        }
      }
      FirstTextWinner(page, selectors[1..], i - 1);
    }
  }

  /** The field is absent exactly when no selector wins. */
  lemma {:induction false} FirstTextAbsent(page: seq<Element>, selectors: seq<Selector>)
    ensures FirstText(page, selectors).None? <==> forall j :: 0 <= j < |selectors| ==> !Wins(page, selectors[j])
    decreases |selectors|
  {
    if selectors != [] {
      FirstTextAbsent(page, selectors[1..]);
      if !Wins(page, selectors[0]) {
        forall j | 1 <= j < |selectors| ensures selectors[j] == selectors[1..][j - 1] { }
      }
    }
  }

  /** A present value always comes from the first winning selector. */
  lemma {:induction false} FirstTextPresent(page: seq<Element>, selectors: seq<Selector>)
    requires FirstText(page, selectors).Some?
    ensures exists i :: IsWinner(page, selectors, i)
                        && FirstText(page, selectors) == Some(WinningText(page, selectors[i]))
    decreases |selectors|
  {
    if Wins(page, selectors[0]) {
      assert IsWinner(page, selectors, 0);
    } else {
      FirstTextPresent(page, selectors[1..]);
      var i :| IsWinner(page, selectors[1..], i)
               && FirstText(page, selectors[1..]) == Some(WinningText(page, selectors[1..][i]));
      assert IsWinner(page, selectors, i + 1) by {
        forall j | 0 <= j < i + 1 ensures !Wins(page, selectors[j]) {
          if j > 0 { assert selectors[j] == selectors[1..][j - 1]; }
        }
      }
    }
  }

  /** Short circuit: once a selector wins, selectors listed after it are never consulted. */
  lemma {:induction false} FirstTextShortCircuit(page: seq<Element>, selectors: seq<Selector>, more: seq<Selector>)
    requires FirstText(page, selectors).Some?
    ensures FirstText(page, selectors + more) == FirstText(page, selectors)
    decreases |selectors|
  {
    if !Wins(page, selectors[0]) {
      assert (selectors + more)[1..] == selectors[1..] + more;
      FirstTextShortCircuit(page, selectors[1..], more);
    }
  }

  /** Fall through: when no selector of a list wins, the next list decides alone. */
  lemma {:induction false} FirstTextFallThrough(page: seq<Element>, selectors: seq<Selector>, more: seq<Selector>)
    requires FirstText(page, selectors).None?
    ensures FirstText(page, selectors + more) == FirstText(page, more)
    decreases |selectors|
  {
    if selectors == [] {
      assert selectors + more == more;
    } else {
      assert (selectors + more)[1..] == selectors[1..] + more;
      FirstTextFallThrough(page, selectors[1..], more);
    }
  }

  /** Text made only of whitespace still wins, and the stored value is then empty. */
  lemma BlankTextWins(page: seq<Element>, selectors: seq<Selector>, i: int)
    requires 0 <= i < |selectors| && forall j :: 0 <= j < i ==> !Wins(page, selectors[j])
    requires QuerySelector(page, {selectors[i]}).Some?
    requires var t := QuerySelector(page, {selectors[i]}).value.text; t.Some? && t.value != "" && AllWhitespace(t.value)
    ensures FirstText(page, selectors) == Some("")
  {
    FirstTextWinner(page, selectors, i);
  }

  /** The loop over `priceSelectors` or `descriptionSelectors`, with `break` on the first success. */
  method FindFirstText(page: seq<Element>, selectors: seq<Selector>) returns (r: Option<string>)
    ensures r == FirstText(page, selectors)
  {
    r := None;
    for i := 0 to |selectors|
      invariant FirstText(page, selectors) == FirstText(page, selectors[i..])
    {
      var el := QuerySelector(page, {selectors[i]});
      if el.Some? && el.value.text.Some? && el.value.text.value != "" {
        r := Some(Trim(el.value.text.value));
        break;
      }
      assert selectors[i..][1..] == selectors[i + 1..];
    }
  }

  // ---------------------------------------------------------- specifications

  type RowOutcome = Option<(string, string)>

  /** The label and value a row contributes: both trimmed, and only when neither is empty. */
  function RowEntry(row: Element): RowOutcome {
    var key := TrimmedText(QuerySelector(row.descendants, LabelGroup));
    var value := TrimmedText(QuerySelector(row.descendants, ValueGroup));
    if key != "" && value != "" then Some((key, value)) else None
  }

  /** A row entry whose label and value are non-empty and already trimmed. */
  predicate CleanEntry(o: RowOutcome) {
    o.Some? ==> o.value.0 != "" && o.value.1 != "" && Trim(o.value.0) == o.value.0 && Trim(o.value.1) == o.value.1
  }

  /** Every row entry is clean. */
  lemma RowEntryClean(row: Element)
    ensures CleanEntry(RowEntry(row))
  {
    var e := RowEntry(row);
    if e.Some? {
      TrimIdempotent(TrimmedText(QuerySelector(row.descendants, LabelGroup)));
      TrimIdempotent(TrimmedText(QuerySelector(row.descendants, ValueGroup)));
    }
  }

  /** What each row of `rows` contributes, in order. */
  function RowEntries(rows: seq<Element>): seq<RowOutcome> {
    seq(|rows|, i requires 0 <= i < |rows| => RowEntry(rows[i]))
  }

  /**
   * The dictionary built from `{}` by assigning each contributed entry in turn;
   * an entry labelled `__proto__` stores nothing.
   */
  function Collect(es: seq<RowOutcome>): Entries {
    if es == [] then []
    else
      var acc := Collect(es[..|es| - 1]);
      var e := es[|es| - 1];
      if e.Some? && e.value.0 != ProtoKey then Put(acc, e.value.0, e.value.1) else acc
  }

  /** A row labelled `__proto__` leaves the dictionary as it was. */
  lemma ProtoLabelIgnored(es: seq<RowOutcome>, v: string)
    ensures Collect(es + [Some((ProtoKey, v))]) == Collect(es)
  {
    assert (es + [Some((ProtoKey, v))])[..|es|] == es;
  }

  /** The dictionary the `forEach` over `rows` builds. */
  function RowsToSpecs(rows: seq<Element>): Entries {
    Collect(RowEntries(rows))
  }

  /** The rows of a container: its elements matching `tr, .spec-row, .attribute-row`. */
  function Rows(container: Element): seq<Element> {
    QuerySelectorAll(container.descendants, RowGroup)
  }

  /** The first element for `sel` exists and has at least one row element. */
  predicate Qualifies(page: seq<Element>, sel: Selector) {
    var c := QuerySelector(page, {sel});
    c.Some? && Rows(c.value) != []
  }

  /** The container rule: the first qualifying container supplies all entries; none qualifying gives `{}`. */
  function SpecsFrom(page: seq<Element>, selectors: seq<Selector>): Entries
    decreases |selectors|
  {
    if selectors == [] then []
    else if Qualifies(page, selectors[0]) then RowsToSpecs(Rows(QuerySelector(page, {selectors[0]}).value))
    else SpecsFrom(page, selectors[1..])
  }

  function Specifications(page: seq<Element>): Entries {
    SpecsFrom(page, SpecSelectors)
  }

  /** Container `i` is the first that qualifies. */
  predicate IsFirstQualifying(page: seq<Element>, selectors: seq<Selector>, i: int) {
    0 <= i < |selectors| && Qualifies(page, selectors[i])
    && forall j :: 0 <= j < i ==> !Qualifies(page, selectors[j])
  }

  /**
   * The first container with at least one row element ends the search: the
   * result is built from its rows alone, even when none of them is valid.
   */
  lemma {:induction false} SpecsFromFirstQualifying(page: seq<Element>, selectors: seq<Selector>, i: int)
    requires IsFirstQualifying(page, selectors, i)
    ensures SpecsFrom(page, selectors) == RowsToSpecs(Rows(QuerySelector(page, {selectors[i]}).value))
    decreases i
  {
    if i > 0 {
      assert !Qualifies(page, selectors[0]);
      assert IsFirstQualifying(page, selectors[1..], i - 1) by {
        forall j | 0 <= j < i - 1 ensures !Qualifies(page, selectors[1..][j]) {
          assert selectors[1..][j] == selectors[j + 1];
        }
      }
      SpecsFromFirstQualifying(page, selectors[1..], i - 1);
    }
  }

  /** With no qualifying container the specifications are `{}`. */
  lemma {:induction false} SpecsFromNoneQualifying(page: seq<Element>, selectors: seq<Selector>)
    requires forall j :: 0 <= j < |selectors| ==> !Qualifies(page, selectors[j])
    ensures SpecsFrom(page, selectors) == []
    decreases |selectors|
  {
    if selectors != [] {
      assert forall j :: 0 <= j < |selectors| - 1 ==> selectors[1..][j] == selectors[j + 1];
      SpecsFromNoneQualifying(page, selectors[1..]);
    }
  }

  /** The entry contributes under label `k`. */
  predicate HasLabel(o: RowOutcome, k: string) {
    o.Some? && o.value.0 == k
  }

  /** Entry `i` is `(k, v)` and no later entry has label `k`. */
  predicate LastEntryFor(es: seq<RowOutcome>, i: int, k: string, v: string) {
    0 <= i < |es| && es[i] == Some((k, v))
    && forall j :: i < j < |es| ==> !HasLabel(es[j], k)
  }

  /** No label appears twice, `__proto__` never does, and there is at most one entry per row. */
  lemma {:induction false} CollectWellFormed(es: seq<RowOutcome>)
    ensures DistinctKeys(Collect(es))
    ensures ProtoKey !in KeySet(Collect(es))
    ensures |Collect(es)| <= |es|
    decreases |es|
  {
    if es != [] {
      CollectWellFormed(es[..|es| - 1]);
    }
  }

  /** Every entry of the dictionary is one of the row entries. */
  lemma {:induction false} CollectFrom(es: seq<RowOutcome>)
    ensures forall e :: e in Collect(es) ==> Some(e) in es
    decreases |es|
  {
    if es != [] {
      var n := |es| - 1;
      var init := es[..n];
      CollectFrom(init);
      var acc := Collect(init);
      assert forall e :: e in acc ==> Some(e) in es by {
        forall e | e in acc ensures Some(e) in es {
          var i :| 0 <= i < n && init[i] == Some(e);
          assert es[i] == init[i];
        }
      }
      if es[n].Some? && es[n].value.0 != ProtoKey {
        assert Collect(es) == Put(acc, es[n].value.0, es[n].value.1);
        CollectWellFormed(init);
        PutEntries(acc, es[n].value.0, es[n].value.1);
      } else {
        assert Collect(es) == acc;
      }
    }
  }

  /**
   * A label other than `__proto__` maps to the value of the last entry
   * carrying it: a repeated label overwrites the earlier value.
   */
  lemma {:induction false} CollectLookup(es: seq<RowOutcome>, k: string, v: string)
    ensures Lookup(Collect(es), k) == Some(v) <==> k != ProtoKey && exists i :: LastEntryFor(es, i, k, v)
    decreases |es|
  {
    if k == ProtoKey {
      CollectWellFormed(es);
    } else if es != [] {
      var init := es[..|es| - 1];
      CollectLookup(init, k, v);
      if HasLabel(es[|es| - 1], k) {
        CollectLookupOverwrite(es, k, v);
      } else {
        CollectLookupOther(es, k);
        LastEntrySkipsSilent(es, init, k, v);
      }
    }
  }

  /** The last entry has label `k`: its value is what `k` maps to, and it is the last entry for `k`. */
  lemma CollectLookupOverwrite(es: seq<RowOutcome>, k: string, v: string)
    requires es != [] && k != ProtoKey && HasLabel(es[|es| - 1], k)
    ensures Lookup(Collect(es), k) == Some(es[|es| - 1].value.1)
    ensures (exists i :: LastEntryFor(es, i, k, v)) <==> es[|es| - 1].value.1 == v
  {
    var n := |es| - 1;
    var acc := Collect(es[..n]);
    assert Collect(es) == Put(acc, k, es[n].value.1);
    CollectWellFormed(es[..n]);
    PutLookup(acc, k, es[n].value.1, k);
    if es[n].value.1 == v {
      assert LastEntryFor(es, n, k, v);
    } else {
      forall i | 0 <= i < n ensures !LastEntryFor(es, i, k, v) {
        assert HasLabel(es[n], k);
      }
    }
  }

  /** The last entry has another label: what `k` maps to is decided by the earlier entries. */
  lemma CollectLookupOther(es: seq<RowOutcome>, k: string)
    requires es != [] && !HasLabel(es[|es| - 1], k)
    ensures Lookup(Collect(es), k) == Lookup(Collect(es[..|es| - 1]), k)
  {
    var n := |es| - 1;
    var e := es[n];
    if e.Some? && e.value.0 != ProtoKey {
      assert Collect(es) == Put(Collect(es[..n]), e.value.0, e.value.1);
      CollectWellFormed(es[..n]);
      PutLookup(Collect(es[..n]), e.value.0, e.value.1, k);
    }
  }

  /** When the last entry does not have label `k`, the last entry for `k` is the one among the earlier entries. */
  lemma LastEntrySkipsSilent(es: seq<RowOutcome>, init: seq<RowOutcome>, k: string, v: string)
    requires es != [] && init == es[..|es| - 1] && !HasLabel(es[|es| - 1], k)
    ensures (exists i :: LastEntryFor(es, i, k, v)) <==> exists i :: LastEntryFor(init, i, k, v)
  {
    forall i | LastEntryFor(es, i, k, v) ensures LastEntryFor(init, i, k, v) {
      forall j | i < j < |init| ensures !HasLabel(init[j], k) {
        assert es[j] == init[j];
      }
    }
    forall i | LastEntryFor(init, i, k, v) ensures LastEntryFor(es, i, k, v) {
      forall j | i < j < |es| ensures !HasLabel(es[j], k) {
        if j < |init| { assert es[j] == init[j]; }
      }
    }
  }

  /** A label other than `__proto__` is present exactly when some entry carries it. */
  lemma {:induction false} CollectKeys(es: seq<RowOutcome>, k: string)
    ensures k in KeySet(Collect(es)) <==> k != ProtoKey && exists i :: 0 <= i < |es| && HasLabel(es[i], k)
    decreases |es|
  {
    if k == ProtoKey {
      CollectWellFormed(es);
    } else if es != [] {
      var n := |es| - 1;
      var init := es[..n];
      CollectKeys(init, k);
      assert k in KeySet(Collect(es)) <==> k in KeySet(Collect(init)) || HasLabel(es[n], k) by {
        var e := es[n];
        if e.Some? && e.value.0 != ProtoKey {
          assert Collect(es) == Put(Collect(init), e.value.0, e.value.1);
        } else {
          assert Collect(es) == Collect(init);
        }
      }
      assert (exists i :: 0 <= i < |es| && HasLabel(es[i], k))
         <==> (exists i :: 0 <= i < n && HasLabel(init[i], k)) || HasLabel(es[n], k) by {
        if exists i :: 0 <= i < n && HasLabel(init[i], k) {
          var i :| 0 <= i < n && HasLabel(init[i], k);
          assert es[i] == init[i];
        }
        if exists i :: 0 <= i < |es| && HasLabel(es[i], k) {
          var i :| 0 <= i < |es| && HasLabel(es[i], k);
          if i < n { assert init[i] == es[i]; }
        }
      }
    }
  }

  /** The labels of the entries other than `__proto__`, each once, in the order they first appear. */
  function FirstLabels(es: seq<RowOutcome>): seq<string> {
    if es == [] then []
    else
      var ks := FirstLabels(es[..|es| - 1]);
      var e := es[|es| - 1];
      if e.Some? && e.value.0 != ProtoKey && e.value.0 !in ks then ks + [e.value.0] else ks
  }

  /** Every entry with label `b` comes after some entry with label `a`. */
  predicate FirstBefore(es: seq<RowOutcome>, a: string, b: string) {
    forall i :: 0 <= i < |es| && HasLabel(es[i], b) ==> exists j :: 0 <= j < i && HasLabel(es[j], a)
  }

  /** `FirstLabels` lists exactly the labels other than `__proto__` that some entry carries. */
  lemma {:induction false} FirstLabelsMembers(es: seq<RowOutcome>, k: string)
    ensures k in FirstLabels(es) <==> k != ProtoKey && exists i :: 0 <= i < |es| && HasLabel(es[i], k)
    decreases |es|
  {
    if es != [] {
      var n := |es| - 1;
      var init := es[..n];
      FirstLabelsMembers(init, k);
      assert (exists i :: 0 <= i < |es| && HasLabel(es[i], k))
         <==> (exists i :: 0 <= i < n && HasLabel(init[i], k)) || HasLabel(es[n], k) by {
        if exists i :: 0 <= i < n && HasLabel(init[i], k) {
          var i :| 0 <= i < n && HasLabel(init[i], k);
          assert es[i] == init[i];
        }
        if exists i :: 0 <= i < |es| && HasLabel(es[i], k) {
          var i :| 0 <= i < |es| && HasLabel(es[i], k);
          if i < n { assert init[i] == es[i]; }
        }
      }
    }
  }

  /**
   * `FirstLabels` has no repeats and orders labels by first appearance: every
   * entry carrying a later label comes after an entry carrying each earlier one.
   */
  lemma {:induction false} FirstLabelsOrder(es: seq<RowOutcome>)
    ensures forall p, q :: 0 <= p < q < |FirstLabels(es)| ==> FirstLabels(es)[p] != FirstLabels(es)[q]
    ensures forall p, q :: 0 <= p < q < |FirstLabels(es)| ==> FirstBefore(es, FirstLabels(es)[p], FirstLabels(es)[q])
    decreases |es|
  {
    if es != [] {
      var n := |es| - 1;
      var init := es[..n];
      var ks := FirstLabels(init);
      var fl := FirstLabels(es);
      FirstLabelsOrder(init);
      assert forall j :: 0 <= j < n ==> init[j] == es[j];
      forall p, q | 0 <= p < q < |fl| ensures FirstBefore(es, fl[p], fl[q]) {
        FirstLabelsMembers(init, fl[p]);
        assert fl[p] == ks[p];
        var j0 :| 0 <= j0 < n && HasLabel(init[j0], fl[p]);
        forall i | 0 <= i < |es| && HasLabel(es[i], fl[q]) ensures exists j :: 0 <= j < i && HasLabel(es[j], fl[p]) {
          if i < n {
            if q < |ks| {
              assert FirstBefore(init, ks[p], ks[q]);
              assert HasLabel(init[i], ks[q]);
              var j :| 0 <= j < i && HasLabel(init[j], ks[p]);
              assert HasLabel(es[j], fl[p]);
            } else {
              FirstLabelsMembers(init, fl[q]);
              assert false;
            }
          } else {
            assert HasLabel(es[j0], fl[p]);
          }
        }
      }
    }
  }

  /**
   * The dictionary's keys, in property order, are the labels in the order they
   * first appear: a new label is appended, and a repeated label keeps the place
   * its first row gave it.
   */
  lemma {:induction false} CollectOrder(es: seq<RowOutcome>)
    ensures Keys(Collect(es)) == FirstLabels(es)
    decreases |es|
  {
    if es != [] {
      var n := |es| - 1;
      var init := es[..n];
      CollectOrder(init);
      var acc := Collect(init);
      var e := es[n];
      if e.Some? && e.value.0 != ProtoKey {
        assert Collect(es) == Put(acc, e.value.0, e.value.1);
        PutKeys(acc, e.value.0, e.value.1);
      } else {
        assert Collect(es) == acc;
      }
    }
  }

  /**
   * The dictionary built from a container's rows: its labels are exactly the
   * labels of the valid rows other than `__proto__`, and each maps to the value
   * of the last valid row with that label.
   */
  lemma RowsToSpecsSpec(rows: seq<Element>, k: string, v: string)
    ensures k in KeySet(RowsToSpecs(rows)) <==>
      k != ProtoKey && exists i :: 0 <= i < |rows| && HasLabel(RowEntries(rows)[i], k)
    ensures Lookup(RowsToSpecs(rows), k) == Some(v) <==>
      k != ProtoKey && exists i :: LastEntryFor(RowEntries(rows), i, k, v)
  {
    CollectKeys(RowEntries(rows), k);
    CollectLookup(RowEntries(rows), k, v);
  }

  /** No label repeats, there is at most one entry per row, and every label and value is non-empty and trimmed. */
  lemma RowsToSpecsWellFormed(rows: seq<Element>)
    ensures DistinctKeys(RowsToSpecs(rows)) && |RowsToSpecs(rows)| <= |rows|
    ensures forall e :: e in RowsToSpecs(rows) ==> CleanEntry(Some(e))
  {
    var es := RowEntries(rows);
    CollectWellFormed(es);
    CollectFrom(es);
    forall e | e in RowsToSpecs(rows) ensures CleanEntry(Some(e)) {
      var i :| 0 <= i < |es| && es[i] == Some(e);
      RowEntryClean(rows[i]);
    }
  }

  /**
   * The keys of the dictionary built from a container's rows follow document
   * order: the labels of the valid rows other than `__proto__`, each once, in
   * the order of the first row carrying each.
   */
  lemma RowsToSpecsOrder(rows: seq<Element>)
    ensures Keys(RowsToSpecs(rows)) == FirstLabels(RowEntries(rows))
    ensures forall p, q :: 0 <= p < q < |Keys(RowsToSpecs(rows))| ==>
      FirstBefore(RowEntries(rows), Keys(RowsToSpecs(rows))[p], Keys(RowsToSpecs(rows))[q])
  {
    CollectOrder(RowEntries(rows));
    FirstLabelsOrder(RowEntries(rows));
  }

  /** One more entry: the fold over the first `j + 1` entries assigns entry `j` to the fold over the first `j`. */
  lemma CollectStep(es: seq<RowOutcome>, j: nat)
    requires j < |es|
    ensures var acc := Collect(es[..j]);
      Collect(es[..j + 1]) == if es[j].Some? && es[j].value.0 != ProtoKey then Put(acc, es[j].value.0, es[j].value.1) else acc
  {
    assert es[..j + 1][..j] == es[..j];
  }

  /** The `forEach` over the rows of one container. */
  method CollectRows(rows: seq<Element>) returns (specs: Entries)
    ensures specs == RowsToSpecs(rows)
  {
    specs := [];
    ghost var es := RowEntries(rows);
    for j := 0 to |rows|
      invariant specs == Collect(es[..j])
    {
      var row := rows[j];
      var key := TrimmedText(QuerySelector(row.descendants, LabelGroup));
      var value := TrimmedText(QuerySelector(row.descendants, ValueGroup));
      assert es[j] == if key != "" && value != "" then Some((key, value)) else None;
      CollectStep(es, j);
      if key != "" && value != "" && key != ProtoKey {
        specs := Put(specs, key, value);
      }
    }
    assert es[..|rows|] == es;
  }

  /** The loop over `specSelectors`: the first container that has rows is read, then `break`. */
  method FindSpecifications(page: seq<Element>) returns (specs: Entries)
    ensures specs == Specifications(page)
  {
    specs := [];
    for i := 0 to |SpecSelectors|
      invariant SpecsFrom(page, SpecSelectors) == SpecsFrom(page, SpecSelectors[i..])
      invariant specs == []
    {
      var container := QuerySelector(page, {SpecSelectors[i]});
      if container.Some? {
        var rows := QuerySelectorAll(container.value.descendants, RowGroup);
        if |rows| > 0 {
          specs := CollectRows(rows);
          break;
        }
      }
      assert SpecSelectors[i..][1..] == SpecSelectors[i + 1..];
    }
  }

  // ------------------------------------------------------------------- images

  /** `src` is a non-empty string (`if (src && ...)`). */
  predicate HasSrc(e: Element) {
    e.src.Some? && e.src.value != ""
  }

  /** The primary filter: a set `src` naming neither a placeholder nor a loading image. */
  predicate KeepsPrimary(e: Element) {
    HasSrc(e) && !Contains(e.src.value, "placeholder") && !Contains(e.src.value, "loading")
  }

  /** The fallback filter: a set `src`, wider than 200 pixels, naming neither a logo nor an icon. */
  predicate KeepsFallback(e: Element) {
    HasSrc(e) && e.width > MinFallbackWidth && !Contains(e.src.value, "logo") && !Contains(e.src.value, "icon")
  }

  datatype ImageRule = Primary | Fallback

  predicate Keeps(rule: ImageRule, e: Element) {
    match rule
    case Primary => KeepsPrimary(e)
    case Fallback => KeepsFallback(e)
  }

  /** The `src` of every element of `elems` the rule keeps, in order. */
  function Srcs(elems: seq<Element>, rule: ImageRule): (r: seq<string>)
    ensures |r| <= |elems|
    ensures forall x :: x in r <==> exists e :: e in elems && Keeps(rule, e) && e.src.value == x
  {
    if elems == [] then []
    else
      var init := elems[..|elems| - 1];
      var last := elems[|elems| - 1];
      assert elems == init + [last];
      Srcs(init, rule) + (if Keeps(rule, last) then [last.src.value] else [])
  }

  /** Order is kept: the sources found in `a + b` are those of `a` followed by those of `b`. */
  lemma {:induction false} SrcsAppend(a: seq<Element>, b: seq<Element>, rule: ImageRule)
    ensures Srcs(a + b, rule) == Srcs(a, rule) + Srcs(b, rule)
    decreases |b|
  {
    if b == [] {
      assert a + b == a;
    } else {
      var b' := b[..|b| - 1];
      assert (a + b)[..|a + b| - 1] == a + b';
      SrcsAppend(a, b', rule);
    }
  }

  function PrimaryImages(page: seq<Element>): seq<string> {
    Srcs(QuerySelectorAll(page, ProductImageGroup), Primary)
  }

  function FallbackImages(page: seq<Element>): seq<string> {
    Srcs(QuerySelectorAll(page, ImgGroup), Fallback)
  }

  /** `productInfo.images`: the primary list, or the fallback list when the primary one is empty. */
  function Images(page: seq<Element>): seq<string> {
    var primary := PrimaryImages(page);
    if primary != [] then primary else FallbackImages(page)
  }

  /**
   * The primary list holds the `src` of exactly the product-image elements that
   * pass the placeholder/loading filter, and lists the images of `a + b` as
   * those of `a` followed by those of `b`.
   */
  lemma PrimaryImagesSpec(a: seq<Element>, b: seq<Element>)
    ensures forall x :: x in PrimaryImages(a) <==>
      exists e :: e in a && Matches(e, ProductImageGroup) && KeepsPrimary(e) && e.src.value == x
    ensures PrimaryImages(a + b) == PrimaryImages(a) + PrimaryImages(b)
    ensures forall x :: x in PrimaryImages(a) ==> x != "" && !Contains(x, "placeholder") && !Contains(x, "loading")
  {
    QuerySelectorAllAppend(a, b, ProductImageGroup);
    SrcsAppend(QuerySelectorAll(a, ProductImageGroup), QuerySelectorAll(b, ProductImageGroup), Primary);
  }

  /**
   * The fallback list holds the `src` of exactly the `img` elements with a set
   * `src`, width above 200 and no logo/icon marker, in document order; it does
   * not apply the placeholder/loading filter.
   */
  lemma FallbackImagesSpec(a: seq<Element>, b: seq<Element>)
    ensures forall x :: x in FallbackImages(a) <==>
      exists e :: e in a && Matches(e, ImgGroup) && KeepsFallback(e) && e.src.value == x
    ensures FallbackImages(a + b) == FallbackImages(a) + FallbackImages(b)
  {
    QuerySelectorAllAppend(a, b, ImgGroup);
    SrcsAppend(QuerySelectorAll(a, ImgGroup), QuerySelectorAll(b, ImgGroup), Fallback);
  }

  /**
   * Fallback gating: an image only the fallback would find (a wide logo-free
   * `img` outside the product selectors) appears only when the primary list is empty.
   */
  lemma ImagesGate(page: seq<Element>, x: string)
    ensures PrimaryImages(page) != [] ==> Images(page) == PrimaryImages(page)
    ensures x in Images(page) <==>
      x in PrimaryImages(page) || (PrimaryImages(page) == [] && x in FallbackImages(page))
  {
  }

  /** The fallback scan does not screen out placeholder or loading URLs. */
  lemma FallbackAdmitsPlaceholder(page: seq<Element>, i: int)
    requires 0 <= i < |page| && PrimaryImages(page) == []
    requires Matches(page[i], ImgGroup) && KeepsFallback(page[i])
    requires Contains(page[i].src.value, "placeholder") || Contains(page[i].src.value, "loading")
    ensures page[i].src.value in Images(page)
  {
    FallbackImagesSpec(page, []);
  }

  /** The two `forEach` scans over the images; the second runs only when the first found nothing. */
  method CollectImages(page: seq<Element>) returns (images: seq<string>)
    ensures images == Images(page)
  {
    var imageElements := QuerySelectorAll(page, ProductImageGroup);
    images := [];
    for i := 0 to |imageElements|
      invariant images == Srcs(imageElements[..i], Primary)
    {
      var img := imageElements[i];
      if img.src.Some? && img.src.value != "" && !Contains(img.src.value, "placeholder") && !Contains(img.src.value, "loading") {
        images := images + [img.src.value];
      }
      assert imageElements[..i + 1][..i] == imageElements[..i];
      assert Srcs(imageElements[..i + 1], Primary)
          == Srcs(imageElements[..i], Primary) + (if KeepsPrimary(img) then [img.src.value] else []);
    }
    assert imageElements[..|imageElements|] == imageElements;
    if |images| == 0 {
      var allImages := QuerySelectorAll(page, ImgGroup);
      for i := 0 to |allImages|
        invariant images == Srcs(allImages[..i], Fallback)
      {
        var img := allImages[i];
        if img.src.Some? && img.src.value != "" && img.width > MinFallbackWidth
           && !Contains(img.src.value, "logo") && !Contains(img.src.value, "icon") {
          images := images + [img.src.value];
        }
        assert allImages[..i + 1][..i] == allImages[..i];
        assert Srcs(allImages[..i + 1], Fallback)
            == Srcs(allImages[..i], Fallback) + (if KeepsFallback(img) then [img.src.value] else []);
      }
      assert allImages[..|allImages|] == allImages;
    }
  }

  // ---------------------------------------------------------------- the whole

  /** What the callback returns for `page`. */
  function Extracted(page: seq<Element>): ProductInfo {
    ProductInfo(
      Title(page),
      FirstText(page, PriceSelectors),
      FirstText(page, DescriptionSelectors),
      Specifications(page),
      Images(page))
  }

  /** The `page.evaluate` callback, field by field. */
  method Evaluate(page: seq<Element>) returns (info: ProductInfo)
    ensures info == Extracted(page)
  {
    var title := TrimmedText(QuerySelector(page, HeadingGroup));
    var price := FindFirstText(page, PriceSelectors);
    var description := FindFirstText(page, DescriptionSelectors);
    var specifications := FindSpecifications(page);
    var images := CollectImages(page);
    info := ProductInfo(title, price, description, specifications, images);
  }

}
