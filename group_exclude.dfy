/**
 * The GROUP/EXCLUDE field's mini-grammar: a comma-separated list whose trimmed
 * entries are `NOT-#<id>` (an exclusion, recognised and dropped), `G#<id>` (a hotel
 * booking group) or `#<id>` (a single hotel booking); anything else is ignored.
 */
module GroupExclude {
  import opened Js

  datatype Parsed = Parsed(groups: seq<string>, individuals: seq<string>, excludes: seq<string>)

  const Empty := Parsed([], [], [])

  /** What one comma-separated entry contributes. */
  datatype Entry = Skip | Group(id: string) | Individual(id: string)

  function ClassifyEntry(raw: string): Entry {
    ClassifyTrimmed(Trim(raw))
  }

  /** The classification of an entry that is already trimmed. */
  function ClassifyTrimmed(e: string): Entry {
    if e == "" then Skip
    else if StartsWith(ToUpper(e), "NOT-#") then Skip
    else if StartsWith(ToUpper(e), "G#") then
      var id := Trim(e[2..]);
      if id != "" then Group(id) else Skip
    else if StartsWith(e, "#") then
      var id := Trim(e[1..]);
      if id != "" then Individual(id) else Skip
    else Skip
  }

  function Add(p: Parsed, e: Entry): Parsed {
    match e
    case Skip => p
    case Group(id) => p.(groups := p.groups + [id])
    case Individual(id) => p.(individuals := p.individuals + [id])
  }

  /** The entries folded from left to right. */
  function ParseEntries(entries: seq<string>): Parsed
    decreases |entries|
  {
    if |entries| == 0 then Empty
    else Add(ParseEntries(entries[..|entries| - 1]), ClassifyEntry(entries[|entries| - 1]))
  }

  /** `parseGroupExcludeField(value)` */
  function Parse(value: string): Parsed {
    if value == "" then Empty else ParseEntries(Split(value, ','))
  }

  /** The parser as the source writes it: one pass over the comma-separated entries. */
  method ParseGroupExcludeField(value: string) returns (r: Parsed)
    ensures r == Parse(value)
    ensures r.excludes == []
  {
    r := Empty;
    if value == "" {
      return;
    }
    var entries := Split(value, ',');
    var k := 0;
    while k < |entries|
      invariant 0 <= k <= |entries|
      invariant r == ParseEntries(entries[..k])
      invariant r.excludes == []
    {
      assert entries[..k + 1][..k] == entries[..k];
      var entry := Trim(entries[k]);
      if entry == "" {
      } else if StartsWith(ToUpper(entry), "NOT-#") {
      } else if StartsWith(ToUpper(entry), "G#") {
        var id := Trim(entry[2..]);
        if id != "" {
          r := r.(groups := r.groups + [id]);
        }
      } else if StartsWith(entry, "#") {
        var id := Trim(entry[1..]);
        if id != "" {
          r := r.(individuals := r.individuals + [id]);
        }
      }
      k := k + 1;
    }
    assert entries[..k] == entries;
  }

  // ---------------------------------------------------------------------
  // Properties
  // ---------------------------------------------------------------------

  function Concat(a: Parsed, b: Parsed): Parsed {
    Parsed(a.groups + b.groups, a.individuals + b.individuals, a.excludes + b.excludes)
  }

  lemma AddConcat(x: Parsed, y: Parsed, e: Entry)
    ensures Add(Concat(x, y), e) == Concat(x, Add(y, e))
  {
    match e
    case Skip =>
    case Group(id) => assert x.groups + y.groups + [id] == x.groups + (y.groups + [id]);
    case Individual(id) => assert x.individuals + y.individuals + [id] == x.individuals + (y.individuals + [id]);
  }

  /** Entries are independent and the output keeps the input order. */
  lemma {:induction false} ParseEntriesAppend(a: seq<string>, b: seq<string>)
    ensures ParseEntries(a + b) == Concat(ParseEntries(a), ParseEntries(b))
    decreases |b|
  {
    if |b| == 0 {
      assert a + b == a;
      assert ParseEntries(b) == Empty;
      var p := ParseEntries(a);
      assert p.groups + [] == p.groups && p.individuals + [] == p.individuals && p.excludes + [] == p.excludes;
    } else {
      var b' := b[..|b| - 1];
      var last := b[|b| - 1];
      assert (a + b)[..|a + b| - 1] == a + b';
      assert (a + b)[|a + b| - 1] == last;
      var e := ClassifyEntry(last);
      assert ParseEntries(a + b) == Add(ParseEntries(a + b'), e);
      assert ParseEntries(b) == Add(ParseEntries(b'), e);
      ParseEntriesAppend(a, b');
      AddConcat(ParseEntries(a), ParseEntries(b'), e);
    }
  }

  /** Exclusions are never reported. */
  lemma {:induction false} ParseEntriesNoExcludes(entries: seq<string>)
    ensures ParseEntries(entries).excludes == []
    decreases |entries|
  {
    if |entries| > 0 {
      ParseEntriesNoExcludes(entries[..|entries| - 1]);
    }
  }

  lemma EntryIdTrimmed(raw: string)
    ensures !ClassifyEntry(raw).Skip? ==> ClassifyEntry(raw).id != "" && Trim(ClassifyEntry(raw).id) == ClassifyEntry(raw).id
  {
    var e := Trim(raw);
    var c := ClassifyTrimmed(e);
    if c.Group? {
      assert c.id == Trim(e[2..]);
      TrimIdempotent(e[2..]);
    } else if c.Individual? {
      assert c.id == Trim(e[1..]);
      TrimIdempotent(e[1..]);
    }
  }

  /** Every id of the list is non-empty and trimmed. */
  predicate TrimmedIds(ids: seq<string>) {
    forall k :: 0 <= k < |ids| ==> ids[k] != "" && Trim(ids[k]) == ids[k]
  }

  lemma TrimmedIdsSnoc(ids: seq<string>, id: string)
    requires TrimmedIds(ids) && id != "" && Trim(id) == id
    ensures TrimmedIds(ids + [id])
  {
  }

  /** Every reported id is non-empty and trimmed. */
  lemma {:induction false} ParseEntriesIdsTrimmed(entries: seq<string>)
    ensures TrimmedIds(ParseEntries(entries).groups) && TrimmedIds(ParseEntries(entries).individuals)
    decreases |entries|
  {
    if |entries| > 0 {
      var prefix := entries[..|entries| - 1];
      var last := entries[|entries| - 1];
      var p := ParseEntries(prefix);
      var e := ClassifyEntry(last);
      ParseEntriesIdsTrimmed(prefix);
      EntryIdTrimmed(last);
      assert ParseEntries(entries) == Add(p, e);
      match e
      case Skip =>
      case Group(id) =>
        TrimmedIdsSnoc(p.groups, id);
      case Individual(id) =>
        TrimmedIdsSnoc(p.individuals, id);
    }
  }

  /** An entry starting with `NOT-#` in any letter case contributes nothing, wherever it stands. */
  lemma NotEntryIgnored(before: seq<string>, entry: string, after: seq<string>)
    requires StartsWith(ToUpper(Trim(entry)), "NOT-#")
    ensures ParseEntries(before + [entry] + after) == ParseEntries(before + after)
  {
    ParseEntriesAppend(before + [entry], after);
    ParseEntriesAppend(before, [entry]);
    ParseEntriesAppend(before, after);
    assert [entry][..0] == [];
  }

  // ---------------------------------------------------------------------
  // Round trip with a writer of the grammar
  // ---------------------------------------------------------------------

  /** An id the grammar can carry: non-empty, trimmed, without a comma. */
  predicate IsPlainId(id: string) {
    id != "" && IsTrimmed(id) && ',' !in id
  }

  /** `prefix + id` for each id, in order. */
  function Prefixed(prefix: string, ids: seq<string>): (r: seq<string>)
    ensures |r| == |ids|
    ensures forall k :: 0 <= k < |ids| ==> r[k] == prefix + ids[k]
    decreases |ids|
  {
    if |ids| == 0 then [] else Prefixed(prefix, ids[..|ids| - 1]) + [prefix + ids[|ids| - 1]]
  }

  /** Writes `G#g` for each group, then `#i` for each individual. */
  function Entries(p: Parsed): seq<string> {
    Prefixed("G#", p.groups) + Prefixed("#", p.individuals)
  }

  function Render(p: Parsed): string {
    Join(Entries(p), ",")
  }

  lemma ClassifyGroupEntry(g: string)
    requires IsPlainId(g)
    ensures ClassifyEntry("G#" + g) == Group(g)
  {
    var e := "G#" + g;
    assert IsTrimmed(e);
    TrimOfTrimmed(e);
    var u := ToUpper(e);
    assert u[0] == 'G' && u[1] == '#';
    assert !StartsWith(u, "NOT-#");
    assert StartsWith(u, "G#");
    assert e[2..] == g;
    TrimOfTrimmed(g);
  }

  lemma ClassifyIndividualEntry(i: string)
    requires IsPlainId(i)
    ensures ClassifyEntry("#" + i) == Individual(i)
  {
    var e := "#" + i;
    assert IsTrimmed(e);
    TrimOfTrimmed(e);
    var u := ToUpper(e);
    assert u[0] == '#';
    assert !StartsWith(u, "NOT-#");
    assert !StartsWith(u, "G#");
    assert e[1..] == i;
    TrimOfTrimmed(i);
  }

  /** A string made of white space only. */
  predicate AllSpace(s: string) {
    forall k :: 0 <= k < |s| ==> IsSpace(s[k])
  }

  /**
   * `G#` in either letter case, then any white space, then an id, with white space
   * around the entry, is a group entry for the id.
   */
  lemma GroupEntryAnyCase(lead: string, p: string, sp: string, g: string, trail: string)
    requires p == "G#" || p == "g#"
    requires AllSpace(lead) && AllSpace(sp) && AllSpace(trail)
    requires g != "" && IsTrimmed(g)
    ensures ClassifyEntry(lead + p + sp + g + trail) == Group(g)
  {
    var e := p + sp + g;
    assert lead + p + sp + g + trail == lead + e + trail;
    assert e[0] == p[0] && e[|e| - 1] == g[|g| - 1];
    TrimSurrounded(lead, e, trail);
    var u := ToUpper(e);
    assert u[0] == 'G' && u[1] == '#';
    assert !StartsWith(u, "NOT-#");
    assert StartsWith(u, "G#");
    assert e[2..] == sp + g;
    TrimSurrounded(sp, g, "");
    assert sp + g + "" == sp + g;
  }

  /** `#`, then any white space, then an id, with white space around the entry, is an individual entry. */
  lemma IndividualEntrySpaced(lead: string, sp: string, i: string, trail: string)
    requires AllSpace(lead) && AllSpace(sp) && AllSpace(trail)
    requires i != "" && IsTrimmed(i)
    ensures ClassifyEntry(lead + "#" + sp + i + trail) == Individual(i)
  {
    var e := "#" + sp + i;
    assert lead + "#" + sp + i + trail == lead + e + trail;
    assert e[0] == '#' && e[|e| - 1] == i[|i| - 1];
    TrimSurrounded(lead, e, trail);
    var u := ToUpper(e);
    assert u[0] == '#';
    assert !StartsWith(u, "NOT-#");
    assert !StartsWith(u, "G#");
    assert StartsWith(e, "#");
    assert e[1..] == sp + i;
    TrimSurrounded(sp, i, "");
    assert sp + i + "" == sp + i;
  }

  /** A `G#`, `g#` or `#` marker with nothing but white space after it contributes nothing. */
  lemma MarkerWithoutIdSkipped(p: string, sp: string)
    requires p == "G#" || p == "g#" || p == "#"
    requires AllSpace(sp)
    ensures ClassifyEntry(p + sp) == Skip
  {
    TrimSurrounded("", p, sp);
    assert "" + p + sp == p + sp;
    var u := ToUpper(p);
    assert !StartsWith(u, "NOT-#");
    if p == "#" {
      assert !StartsWith(u, "G#");
      assert p[1..] == "";
    } else {
      assert u == "G#";
      assert p[2..] == "";
    }
  }

  /**
   * An entry that, once trimmed, starts with neither `#` nor (in any letter case) `G#`,
   * such as `12` or `x#1`, contributes nothing, wherever it stands.
   */
  lemma UnrecognisedEntryIgnored(before: seq<string>, entry: string, after: seq<string>)
    requires !StartsWith(Trim(entry), "#") && !StartsWith(ToUpper(Trim(entry)), "G#")
    ensures ParseEntries(before + [entry] + after) == ParseEntries(before + after)
  {
    assert ClassifyEntry(entry) == Skip;
    ParseEntriesAppend(before + [entry], after);
    ParseEntriesAppend(before, [entry]);
    ParseEntriesAppend(before, after);
    assert [entry][..0] == [];
  }

  lemma ParseEntriesSnoc(es: seq<string>, x: string)
    ensures ParseEntries(es + [x]) == Add(ParseEntries(es), ClassifyEntry(x))
  {
    assert (es + [x])[..|es|] == es;
  }

  lemma GroupStep(gs: seq<string>)
    requires |gs| > 0 && IsPlainId(gs[|gs| - 1])
    requires ParseEntries(Prefixed("G#", gs[..|gs| - 1])) == Parsed(gs[..|gs| - 1], [], [])
    ensures ParseEntries(Prefixed("G#", gs)) == Parsed(gs, [], [])
  {
    var last := gs[|gs| - 1];
    var es := Prefixed("G#", gs[..|gs| - 1]);
    assert Prefixed("G#", gs) == es + ["G#" + last];
    ParseEntriesSnoc(es, "G#" + last);
    ClassifyGroupEntry(last);
    InitThenLast(gs);
  }

  lemma {:induction false} ParseGroupEntries(gs: seq<string>)
    requires forall k :: 0 <= k < |gs| ==> IsPlainId(gs[k])
    ensures ParseEntries(Prefixed("G#", gs)) == Parsed(gs, [], [])
    decreases |gs|
  {
    if |gs| > 0 {
      ParseGroupEntries(gs[..|gs| - 1]);
      GroupStep(gs);
    }
  }

  lemma IndividualStep(ids: seq<string>)
    requires |ids| > 0 && IsPlainId(ids[|ids| - 1])
    requires ParseEntries(Prefixed("#", ids[..|ids| - 1])) == Parsed([], ids[..|ids| - 1], [])
    ensures ParseEntries(Prefixed("#", ids)) == Parsed([], ids, [])
  {
    var last := ids[|ids| - 1];
    var es := Prefixed("#", ids[..|ids| - 1]);
    assert Prefixed("#", ids) == es + ["#" + last];
    ParseEntriesSnoc(es, "#" + last);
    ClassifyIndividualEntry(last);
    InitThenLast(ids);
  }

  lemma {:induction false} ParseIndividualEntries(ids: seq<string>)
    requires forall k :: 0 <= k < |ids| ==> IsPlainId(ids[k])
    ensures ParseEntries(Prefixed("#", ids)) == Parsed([], ids, [])
    decreases |ids|
  {
    if |ids| > 0 {
      ParseIndividualEntries(ids[..|ids| - 1]);
      IndividualStep(ids);
    }
  }

  lemma EntriesHaveNoComma(p: Parsed)
    requires forall k :: 0 <= k < |p.groups| ==> IsPlainId(p.groups[k])
    requires forall k :: 0 <= k < |p.individuals| ==> IsPlainId(p.individuals[k])
    ensures forall k :: 0 <= k < |Entries(p)| ==> ',' !in Entries(p)[k]
  {
    var gs := Prefixed("G#", p.groups);
    var es := Entries(p);
    forall k | 0 <= k < |es| ensures ',' !in es[k] {
      if k < |gs| {
        assert es[k] == "G#" + p.groups[k];
      } else {
        assert es[k] == "#" + p.individuals[k - |gs|];
      }
    }
  }

  lemma RenderNotEmpty(p: Parsed)
    requires p.groups != [] || p.individuals != []
    ensures Render(p) != ""
  {
    var es := Entries(p);
    if |es| == 1 {
      assert Join(es, ",") == es[0];
    } else {
      assert Join(es, ",") == es[0] + "," + Join(es[1..], ",");
    }
  }

  /** The entries a writer produces parse back to what it wrote. */
  lemma ParseWrittenEntries(p: Parsed)
    requires forall k :: 0 <= k < |p.groups| ==> IsPlainId(p.groups[k])
    requires forall k :: 0 <= k < |p.individuals| ==> IsPlainId(p.individuals[k])
    requires p.excludes == []
    ensures ParseEntries(Entries(p)) == p
  {
    ParseEntriesAppend(Prefixed("G#", p.groups), Prefixed("#", p.individuals));
    ParseGroupEntries(p.groups);
    ParseIndividualEntries(p.individuals);
    assert p.groups + [] == p.groups && [] + p.individuals == p.individuals;
  }

  /** Parsing a rendered list gives back its groups and individuals, in order. */
  lemma RenderRoundTrip(p: Parsed)
    requires forall k :: 0 <= k < |p.groups| ==> IsPlainId(p.groups[k])
    requires forall k :: 0 <= k < |p.individuals| ==> IsPlainId(p.individuals[k])
    requires p.excludes == []
    requires p.groups != [] || p.individuals != []
    ensures Parse(Render(p)) == p
  {
    var es := Entries(p);
    EntriesHaveNoComma(p);
    SplitJoin(es, ',');
    assert Split(Render(p), ',') == es by {
      assert "," == [','];
    }
    RenderNotEmpty(p);
    ParseWrittenEntries(p);
  }
}
