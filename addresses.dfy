/**
 * Address-list handling (app.py:646-666): a comma-separated CC or BCC field is
 * parsed into addresses, and the form's list is merged with the sender
 * account's default list, keeping the first occurrence of each address
 * (`list(dict.fromkeys(...))`).
 */
module Addresses {
  import opened Options
  import opened Text

  /** An address as the parser leaves it: non-empty, already stripped, free of commas. */
  predicate Clean(e: string) {
    e != "" && Strip(e) == e && ',' !in e
  }

  /** No address occurs twice. */
  predicate NoDuplicates(s: seq<string>) {
    forall i, j :: 0 <= i < j < |s| ==> s[i] != s[j]
  }

  /** The comprehension `[e.strip() for e in parts if e.strip()]`. */
  function StripNonEmpty(parts: seq<string>): (r: seq<string>)
    requires forall p :: p in parts ==> ',' !in p
    ensures forall e :: e in r ==> Clean(e)
    decreases |parts|
  {
    if |parts| == 0 then []
    else
      var e := Strip(parts[0]);
      StripIdempotent(parts[0]);
      assert parts[0] in parts;
      StripKeepsAbsent(parts[0], ',');
      var rest := StripNonEmpty(parts[1..]);
      if e == "" then rest else [e] + rest
  }

  /** `parse_email_list`: split on commas, strip each piece, drop the empty ones. */
  function ParseEmailList(text: string): (r: seq<string>)
    ensures forall e :: e in r ==> Clean(e)
  {
    if text == "" then [] else StripNonEmpty(Split(text, ','))
  }

  /** A form or account field that may be missing (`None`) parses to no addresses. */
  function ParseField(field: Option<string>): (r: seq<string>)
    ensures forall e :: e in r ==> Clean(e)
    ensures field == None ==> r == []
  {
    match field
    case None => []
    case Some(text) => ParseEmailList(text)
  }

  /** A piece made only of whitespace strips to nothing. */
  lemma {:induction false} BlankPieceStripsAway(p: string)
    requires forall k :: 0 <= k < |p| ==> IsSpace(p[k])
    ensures Strip(p) == ""
    decreases |p|
  {
    if p != [] {
      BlankPieceStripsAway(p[1..]);
    }
  }

  /** Pieces made only of whitespace contribute nothing. */
  lemma {:induction false} BlankPiecesStripAway(parts: seq<string>)
    requires forall p :: p in parts ==> ',' !in p
    requires forall p, k :: p in parts && 0 <= k < |p| ==> IsSpace(p[k])
    ensures StripNonEmpty(parts) == []
    decreases |parts|
  {
    if |parts| > 0 {
      BlankPieceStripsAway(parts[0]);
      BlankPiecesStripAway(parts[1..]);
    }
  }

  /** Every piece of a split is made of characters of the split text. */
  lemma {:induction false} SplitPiecesFromText(s: string, sep: char)
    ensures forall p, c :: p in Split(s, sep) && c in p ==> c in s
    decreases |s|
  {
    if |s| > 0 {
      SplitPiecesFromText(s[1..], sep);
    }
  }

  /** A field holding only whitespace and commas yields no addresses. */
  lemma BlankFieldIsEmpty(text: string)
    requires forall k :: 0 <= k < |text| ==> IsSpace(text[k]) || text[k] == ','
    ensures ParseEmailList(text) == []
  {
    if text != "" {
      var parts := Split(text, ',');
      SplitPiecesFromText(text, ',');
      forall p, k | p in parts && 0 <= k < |p| ensures IsSpace(p[k]) {
        assert p[k] in p;
      }
      BlankPiecesStripAway(parts);
    }
  }

  /**
   * `list(dict.fromkeys(s))`: each address once, at the place of its first
   * occurrence.
   */
  function Dedup(s: seq<string>): (r: seq<string>)
    ensures NoDuplicates(r)
    ensures forall x :: x in r <==> x in s
    ensures |r| <= |s|
    decreases |s|
  {
    if |s| == 0 then []
    else
      var d := Dedup(s[..|s| - 1]);
      assert forall x :: x in s <==> x in s[..|s| - 1] || x == s[|s| - 1];
      if s[|s| - 1] in d then d else d + [s[|s| - 1]]
  }

  /** The position of the first occurrence of `x` in `s`. */
  function FirstIndex(s: seq<string>, x: string): (k: nat)
    requires x in s
    ensures k < |s| && s[k] == x && x !in s[..k]
    decreases |s|
  {
    if s[0] == x then 0
    else
      var k := FirstIndex(s[1..], x);
      assert s[..k + 1] == [s[0]] + s[1..][..k];
      k + 1
  }

  /** A position holding `x` with no `x` before it is the first occurrence. */
  lemma FirstIndexUnique(s: seq<string>, x: string, k: nat)
    requires k < |s| && s[k] == x && x !in s[..k]
    ensures FirstIndex(s, x) == k
  {
  }

  /** Appending elements keeps the earlier deduplicated list as a prefix. */
  lemma {:induction false} DedupKeepsPrefix(a: seq<string>, b: seq<string>)
    ensures Dedup(a) <= Dedup(a + b)
    decreases |b|
  {
    if |b| == 0 {
      assert a + b == a;
    } else {
      var b' := b[..|b| - 1];
      DedupKeepsPrefix(a, b');
      assert (a + b)[..|a + b| - 1] == a + b';
    }
  }

  /** The deduplicated list lists addresses in the order of their first occurrence. */
  lemma {:induction false} DedupFirstOccurrenceOrder(s: seq<string>)
    ensures forall i, j :: 0 <= i < j < |Dedup(s)| ==>
      FirstIndex(s, Dedup(s)[i]) < FirstIndex(s, Dedup(s)[j])
    decreases |s|
  {
    if |s| > 0 {
      var init := s[..|s| - 1];
      var last := s[|s| - 1];
      var d := Dedup(init);
      var r := Dedup(s);
      DedupFirstOccurrenceOrder(init);
      assert init + [last] == s;
      forall x | x in init ensures FirstIndex(s, x) == FirstIndex(init, x) {
        var k := FirstIndex(init, x);
        assert s[..k] == init[..k];
        FirstIndexUnique(s, x, k);
      }
      if last !in d {
        assert last !in init;
        assert s[..|s| - 1] == init;
        FirstIndexUnique(s, last, |s| - 1);
      }
      forall i, j | 0 <= i < j < |r| ensures FirstIndex(s, r[i]) < FirstIndex(s, r[j]) {
        assert r[i] == d[i];
        assert d[i] in init;
        if j < |d| {
          assert r[j] == d[j] && d[j] in init;
        } else {
          assert r[j] == last;
        }
      }
    }
  }

  /** The deduplicated list is the whole list when nothing repeats. */
  lemma {:induction false} DedupOfUnique(s: seq<string>)
    requires NoDuplicates(s)
    ensures Dedup(s) == s
    decreases |s|
  {
    if |s| > 0 {
      var init := s[..|s| - 1];
      DedupOfUnique(init);
      assert s[|s| - 1] !in init;
      assert init + [s[|s| - 1]] == s;
    }
  }

  /** The CC and BCC lists handed to the transport. */
  datatype CcBcc = CcBcc(cc: seq<string>, bcc: seq<string>)

  /** One merged list: the form's addresses, then the account defaults not already listed. */
  function MergeList(form: Option<string>, default: Option<string>): (r: seq<string>)
    ensures NoDuplicates(r)
    ensures forall e :: e in r ==> Clean(e)
    ensures forall e :: e in r <==> e in ParseField(form) || e in ParseField(default)
    ensures Dedup(ParseField(form)) <= r
  {
    DedupKeepsPrefix(ParseField(form), ParseField(default));
    Dedup(ParseField(form) + ParseField(default))
  }

  /** `merge_cc_bcc_lists(form_cc, form_bcc, default_cc, default_bcc)`. */
  function MergeCcBccLists(formCc: Option<string>, formBcc: Option<string>,
                           defaultCc: Option<string>, defaultBcc: Option<string>): (r: CcBcc)
    ensures NoDuplicates(r.cc) && NoDuplicates(r.bcc)
    ensures forall e :: e in r.cc ==> Clean(e)
    ensures forall e :: e in r.bcc ==> Clean(e)
    ensures forall e :: e in r.cc <==> e in ParseField(formCc) || e in ParseField(defaultCc)
    ensures forall e :: e in r.bcc <==> e in ParseField(formBcc) || e in ParseField(defaultBcc)
    ensures Dedup(ParseField(formCc)) <= r.cc && Dedup(ParseField(formBcc)) <= r.bcc
  {
    CcBcc(MergeList(formCc, defaultCc), MergeList(formBcc, defaultBcc))
  }

  /**
   * Within a merged list, an address comes before another exactly when it
   * first occurs earlier in the form list followed by the default list.
   */
  lemma MergeListOrder(form: Option<string>, default: Option<string>)
    ensures var all := ParseField(form) + ParseField(default);
      var r := MergeList(form, default);
      forall i, j :: 0 <= i < j < |r| ==> FirstIndex(all, r[i]) < FirstIndex(all, r[j])
  {
    DedupFirstOccurrenceOrder(ParseField(form) + ParseField(default));
  }

  /** When the form field adds nothing, the merged list is the account's default list. */
  lemma MergeWithoutFormField(default: Option<string>)
    ensures MergeList(None, default) == Dedup(ParseField(default))
    ensures MergeList(Some(""), default) == Dedup(ParseField(default))
  {
    assert [] + ParseField(default) == ParseField(default);
  }

  /** The comprehension handles its first piece, then the rest. */
  lemma StripNonEmptyCons(p: string, ps: seq<string>)
    requires ',' !in p && forall q :: q in ps ==> ',' !in q
    ensures StripNonEmpty([p] + ps) ==
      (if Strip(p) == "" then [] else [Strip(p)]) + StripNonEmpty(ps)
  {
    assert ([p] + ps)[0] == p;
    assert ([p] + ps)[1..] == ps;
  }

  /** The first address of a `", "`-joined list, behind some whitespace, is the first piece of the split. */
  lemma SplitJoinedStep(w: string, es: seq<string>)
    requires ',' !in w
    requires |es| >= 2 && ',' !in es[0]
    ensures Split(w + Join(es, ", "), ',') == [w + es[0]] + Split(" " + Join(es[1..], ", "), ',')
  {
    var j := Join(es[1..], ", ");
    assert Join(es, ", ") == es[0] + ", " + j;
    assert w + Join(es, ", ") == (w + es[0]) + [','] + (" " + j);
    SplitAtSeparator(w + es[0], ',', " " + j);
  }

  /** A single address behind at most one space parses to itself. */
  lemma ParseOneAfterSpaces(w: string, e: string)
    requires w == "" || w == " "
    requires Clean(e)
    ensures StripNonEmpty(Split(w + e, ',')) == [e]
  {
    StripAfterSpaces(w, e);
    SplitNoSeparator(w + e, ',');
    StripNonEmptyCons(w + e, []);
    assert [w + e] + [] == [w + e];
  }

  /** The first address of a `", "`-joined list comes out first; the rest is parsed behind its space. */
  lemma ParseJoinedStep(w: string, es: seq<string>)
    requires w == "" || w == " "
    requires |es| >= 2 && Clean(es[0])
    ensures StripNonEmpty(Split(w + Join(es, ", "), ',')) ==
      [es[0]] + StripNonEmpty(Split(" " + Join(es[1..], ", "), ','))
  {
    SplitJoinedStep(w, es);
    StripAfterSpaces(w, es[0]);
    StripNonEmptyCons(w + es[0], Split(" " + Join(es[1..], ", "), ','));
  }

  /** Parsing a list joined with `", "`, behind at most one space, gives the list back. */
  lemma {:induction false} ParseAfterSpaces(w: string, es: seq<string>)
    requires w == "" || w == " "
    requires |es| >= 1 && forall e :: e in es ==> Clean(e)
    ensures StripNonEmpty(Split(w + Join(es, ", "), ',')) == es
    decreases |es|
  {
    assert es[0] in es;
    if |es| == 1 {
      assert w + Join(es, ", ") == w + es[0];
      ParseOneAfterSpaces(w, es[0]);
    } else {
      ParseJoinedStep(w, es);
      forall e | e in es[1..] ensures Clean(e) {
        assert e in es;
      }
      ParseAfterSpaces(" ", es[1..]);
      assert [es[0]] + es[1..] == es;
    }
  }

  /** `parse_email_list(", ".join(es)) == es` for clean addresses. */
  lemma ParseJoinRoundTrip(es: seq<string>)
    requires forall e :: e in es ==> Clean(e)
    ensures ParseEmailList(Join(es, ", ")) == es
  {
    if |es| > 0 {
      ParseAfterSpaces("", es);
      assert "" + Join(es, ", ") == Join(es, ", ");
      assert |es| > 1 ==> Join(es, ", ") == es[0] + ", " + Join(es[1..], ", ");
    }
  }

  /** Clean addresses pass the comprehension unchanged. */
  lemma {:induction false} StripNonEmptyClean(es: seq<string>)
    requires forall e :: e in es ==> Clean(e)
    requires forall e :: e in es ==> ',' !in e
    ensures StripNonEmpty(es) == es
    decreases |es|
  {
    if |es| > 0 {
      assert es[0] in es;
      StripNonEmptyClean(es[1..]);
      assert [es[0]] + es[1..] == es;
    }
  }

  /** Two clean addresses separated by a comma parse to those two addresses. */
  lemma ParseTwo(a: string, b: string)
    requires Clean(a) && Clean(b)
    ensures ParseEmailList(a + "," + b) == [a, b]
  {
    var es := [a, b];
    assert Join(es, [',']) == a + "," + b;
    SplitJoin(es, ',');
    StripNonEmptyClean(es);
  }

  /** Deduplicating one more element keeps or extends the earlier result. */
  lemma DedupSnoc(s: seq<string>, x: string)
    ensures Dedup(s + [x]) == if x in Dedup(s) then Dedup(s) else Dedup(s) + [x]
  {
    assert (s + [x])[..|s + [x]| - 1] == s;
  }

  /** One repeated address in the middle is dropped. */
  lemma DedupExample(a: string, b: string, c: string)
    requires a != b && b != c && a != c
    ensures Dedup([a, b] + [b, c]) == [a, b, c]
  {
    var ab := [a, b];
    var abb := ab + [b];
    assert NoDuplicates(ab);
    DedupOfUnique(ab);
    assert b in Dedup(ab);
    DedupSnoc(ab, b);
    assert c !in Dedup(abb);
    DedupSnoc(abb, c);
    assert ab + [b, c] == abb + [c];
    assert ab + [c] == [a, b, c];
  }

  /**
   * A worked example, for any three distinct clean addresses: merging
   * `"a,b"` from the form with `"b,c"` from the account gives `[a, b, c]`, and
   * two empty BCC fields give no BCC.
   */
  lemma MergeExample(a: string, b: string, c: string)
    requires Clean(a) && Clean(b) && Clean(c)
    requires a != b && b != c && a != c
    ensures MergeCcBccLists(Some(a + "," + b), Some(""), Some(b + "," + c), Some("")) == CcBcc([a, b, c], [])
  {
    ParseTwo(a, b);
    ParseTwo(b, c);
    DedupExample(a, b, c);
    assert MergeList(Some(a + "," + b), Some(b + "," + c)) == [a, b, c];
    assert MergeList(Some(""), Some("")) == [];
  }
}
