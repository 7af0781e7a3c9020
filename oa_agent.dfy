/** The office-action workspace: a library of case documents (the office
    action, the application's claims and any number of prior-art references),
    the operations that edit it, and the analysis request assembled from it. */
module OAAgent {
  import opened Wrappers
  import Text
  import Gemini
  import opened ViewInputs

  datatype Category = OA | APP | PRIOR

  datatype DocItem = DocItem(
    id: string,
    category: Category,
    caption: string,  // the source's `label`
    text: string,
    file: Option<MediaFile>)

  /** `Partial<DocItem>`: `None` leaves a field alone; `file := Some(None)`
      is an explicit `file: undefined`, which clears the file. */
  datatype DocUpdate = DocUpdate(
    id: Option<string>,
    category: Option<Category>,
    caption: Option<string>,
    text: Option<string>,
    file: Option<Option<MediaFile>>)

  function TextUpdate(text: string): DocUpdate {
    DocUpdate(None, None, None, Some(text), None)
  }

  function FileUpdate(file: Option<MediaFile>): DocUpdate {
    DocUpdate(None, None, None, None, Some(file))
  }

  const PriorLabelPrefix := "对比文件 D"

  // ---------------------------------------------------------------- labels

  /** The character of the decimal digit `d`. */
  function DigitChar(d: nat): (c: char)
    requires d < 10
    ensures '0' <= c <= '9' && c as int - '0' as int == d
  {
    ('0' as int + d) as char
  }

  /** The decimal numeral of `n`, as a template literal renders it. */
  function Decimal(n: nat): (s: string)
    ensures |s| >= 1
    ensures n >= 10 ==> |s| >= 2
    ensures s[0] == '0' ==> n == 0
    ensures forall i :: 0 <= i < |s| ==> '0' <= s[i] <= '9'
  {
    if n < 10 then [DigitChar(n)] else Decimal(n / 10) + [DigitChar(n % 10)]
  }

  /** The number a string of decimal digits denotes, read left to right. */
  function DecimalValue(s: string): int {
    if s == [] then 0 else 10 * DecimalValue(s[..|s| - 1]) + (s[|s| - 1] as int - '0' as int)
  }

  /** The numeral of `n` denotes `n`. */
  lemma {:induction false} DecimalDenotes(n: nat)
    ensures DecimalValue(Decimal(n)) == n
  {
    if n >= 10 {
      var prefix := Decimal(n / 10);
      DecimalDenotes(n / 10);
      assert (prefix + [DigitChar(n % 10)])[..|prefix|] == prefix;
    }
  }

  /** Different numbers have different numerals. */
  lemma {:induction false} DecimalInjective(a: nat, b: nat)
    requires Decimal(a) == Decimal(b)
    ensures a == b
  {
    if a >= 10 && b >= 10 {
      var da, db := Decimal(a), Decimal(b);
      assert da[|da| - 1] == DigitChar(a % 10) && db[|db| - 1] == DigitChar(b % 10);
      assert Decimal(a / 10) == da[..|da| - 1] == db[..|db| - 1] == Decimal(b / 10);
      DecimalInjective(a / 10, b / 10);
    } else if a < 10 && b < 10 {
      assert Decimal(a)[0] == DigitChar(a);
    }
  }

  /** `对比文件 D${n}`: the fixed prefix, then a decimal numeral without a
      leading zero denoting `n`. */
  function PriorLabel(n: nat): (caption: string)
    ensures |caption| > |PriorLabelPrefix|
    ensures caption[..|PriorLabelPrefix|] == PriorLabelPrefix
    ensures forall i :: |PriorLabelPrefix| <= i < |caption| ==> '0' <= caption[i] <= '9'
    ensures caption[|PriorLabelPrefix|] == '0' ==> n == 0
    ensures DecimalValue(caption[|PriorLabelPrefix|..]) == n
  {
    DecimalDenotes(n);
    assert (PriorLabelPrefix + Decimal(n))[|PriorLabelPrefix|..] == Decimal(n);
    PriorLabelPrefix + Decimal(n)
  }

  lemma PriorLabelInjective(a: nat, b: nat)
    requires PriorLabel(a) == PriorLabel(b)
    ensures a == b
  {
    Text.Embedded(PriorLabelPrefix, Decimal(a), Decimal(b), "");
    DecimalInjective(a, b);
  }

  // ---------------------------------------------------------------- library views

  /** `docs.filter(d => d.category === c)`. */
  function OfCategory(docs: seq<DocItem>, c: Category): (r: seq<DocItem>)
    ensures |r| <= |docs|
    ensures forall i :: 0 <= i < |r| ==> r[i].category == c
  {
    if docs == [] then []
    else (if docs[0].category == c then [docs[0]] else []) + OfCategory(docs[1..], c)
  }

  /** The filter selects only documents of the list. */
  lemma {:induction false} OfCategoryMembers(docs: seq<DocItem>, c: Category)
    ensures forall d :: d in OfCategory(docs, c) ==> d in docs
  {
    if docs != [] {
      OfCategoryMembers(docs[1..], c);
      assert docs == [docs[0]] + docs[1..];
    }
  }

  lemma {:induction false} OfCategoryAppend(a: seq<DocItem>, b: seq<DocItem>, c: Category)
    ensures OfCategory(a + b, c) == OfCategory(a, c) + OfCategory(b, c)
  {
    if a == [] {
      assert a + b == b;
    } else {
      var head := if a[0].category == c then [a[0]] else [];
      assert (a + b)[0] == a[0];
      assert (a + b)[1..] == a[1..] + b;
      assert OfCategory(a + b, c) == head + OfCategory(a[1..] + b, c);
      OfCategoryAppend(a[1..], b, c);
      var rest, tail := OfCategory(a[1..], c), OfCategory(b, c);
      assert OfCategory(a, c) == head + rest;
      assert head + (rest + tail) == (head + rest) + tail;
    }
  }

  /** Selecting a category keeps every document of that category. */
  lemma {:induction false} OfCategoryKeeps(docs: seq<DocItem>, c: Category, d: DocItem)
    requires d in docs && d.category == c
    ensures d in OfCategory(docs, c)
  {
    if docs[0] != d {
      assert docs == [docs[0]] + docs[1..];
      OfCategoryKeeps(docs[1..], c, d);
    }
  }

  lemma OfCategoryKeepsAll(docs: seq<DocItem>, c: Category)
    ensures forall d :: d in docs && d.category == c ==> d in OfCategory(docs, c)
  {
    forall d | d in docs && d.category == c ensures d in OfCategory(docs, c) {
      OfCategoryKeeps(docs, c, d);
    }
  }

  /** The k-th prior-art reference (from 1) is labelled D k. */
  predicate PriorsNumbered(docs: seq<DocItem>) {
    var priors := OfCategory(docs, PRIOR);
    forall k :: 0 <= k < |priors| ==> priors[k].caption == PriorLabel(k + 1)
  }

  predicate UniqueIds(docs: seq<DocItem>) {
    forall i, j :: 0 <= i < j < |docs| ==> docs[i].id != docs[j].id
  }

  /** Numbered references carry pairwise different labels. */
  lemma PriorLabelsDistinct(docs: seq<DocItem>, i: nat, j: nat)
    requires PriorsNumbered(docs)
    requires i < j < |OfCategory(docs, PRIOR)|
    ensures OfCategory(docs, PRIOR)[i].caption != OfCategory(docs, PRIOR)[j].caption
  {
  }

  // ---------------------------------------------------------------- initial state

  function InitialDocs(): seq<DocItem> {
    [ DocItem("oa-1", OA, "审查意见通知书", "", None),
      DocItem("app-1", APP, "本申请权利要求", "", None),
      DocItem("prior-1", PRIOR, "对比文件 D1", "", None) ]
  }

  /** The initial library: one document of each category in the order OA,
      APP, PRIOR, distinct ids and the reference numbered D1. */
  lemma InitialLibrary()
    ensures |InitialDocs()| == 3
    ensures InitialDocs()[0].category == OA && InitialDocs()[1].category == APP && InitialDocs()[2].category == PRIOR
    ensures UniqueIds(InitialDocs())
    ensures PriorsNumbered(InitialDocs())
  {
    var docs := InitialDocs();
    assert Decimal(1) == "1";
    assert OfCategory(docs, PRIOR) == [docs[2]] by {
      assert OfCategory(docs[2..], PRIOR) == [docs[2]];
      assert docs[1..][1..] == docs[2..];
    }
  }

  /** Initially nothing is attached and the screen is not yet ready for
      analysis. */
  lemma InitialLibraryEmpty()
    ensures MediaItemsOf(InitialDocs()) == []
    ensures !HasOA(InitialDocs())
  {
    var docs := InitialDocs();
    assert forall i :: 0 <= i < |docs| ==> docs[i].text == "" && docs[i].file.None?;
    NoAttachmentsWithoutFiles(docs);
  }

  // ---------------------------------------------------------------- addPriorArt

  /** `addPriorArt`, with the time-based id given as `freshId`: appends one
      empty reference after every existing document. */
  function AddPriorArt(docs: seq<DocItem>, freshId: string): (r: seq<DocItem>)
    ensures |r| == |docs| + 1 && r[..|docs|] == docs
    ensures r[|docs|].id == freshId && r[|docs|].category == PRIOR
    ensures r[|docs|].text == "" && r[|docs|].file.None?
  {
    docs + [DocItem(freshId, PRIOR, PriorLabel(|OfCategory(docs, PRIOR)| + 1), "", None)]
  }

  /** The new document becomes the last reference; the office action and the
      claims are left alone. */
  lemma AddPriorArtCategories(docs: seq<DocItem>, freshId: string, c: Category)
    ensures var r := AddPriorArt(docs, freshId);
            OfCategory(r, c) == OfCategory(docs, c) + (if c == PRIOR then [r[|docs|]] else [])
  {
    var r := AddPriorArt(docs, freshId);
    var added := r[|docs|];
    assert r == docs + [added];
    OfCategoryAppend(docs, [added], c);
    assert [added][1..] == [];
  }

  /** Appending a reference labelled with the next number keeps a run of
      references numbered from D1. */
  lemma NumberedSnoc(refs: seq<DocItem>, d: DocItem)
    requires forall k :: 0 <= k < |refs| ==> refs[k].caption == PriorLabel(k + 1)
    requires d.caption == PriorLabel(|refs| + 1)
    ensures forall k :: 0 <= k < |refs| + 1 ==> (refs + [d])[k].caption == PriorLabel(k + 1)
  {
    forall k | 0 <= k < |refs| + 1 ensures (refs + [d])[k].caption == PriorLabel(k + 1) {
      if k < |refs| {
        assert (refs + [d])[k] == refs[k];
      }
    }
  }

  /** The new reference is labelled one past the number of references before
      it, so numbering D1, D2, ... is kept. */
  lemma AddPriorArtNumbering(docs: seq<DocItem>, freshId: string)
    ensures AddPriorArt(docs, freshId)[|docs|].caption == PriorLabel(|OfCategory(docs, PRIOR)| + 1)
    ensures PriorsNumbered(docs) ==> PriorsNumbered(AddPriorArt(docs, freshId))
  {
    var r := AddPriorArt(docs, freshId);
    if PriorsNumbered(docs) {
      var before := OfCategory(docs, PRIOR);
      assert OfCategory(r, PRIOR) == before + [r[|docs|]] by {
        AddPriorArtCategories(docs, freshId, PRIOR);
      }
      NumberedSnoc(before, r[|docs|]);
    }
  }

  lemma AddPriorArtKeepsIdsUnique(docs: seq<DocItem>, freshId: string)
    requires UniqueIds(docs)
    requires forall d :: d in docs ==> d.id != freshId
    ensures UniqueIds(AddPriorArt(docs, freshId))
  {
    var r := AddPriorArt(docs, freshId);
    forall i, j | 0 <= i < j < |r| ensures r[i].id != r[j].id {
      if j == |docs| {
        assert r[i] == docs[i];
      } else {
        assert r[i] == docs[i] && r[j] == docs[j];
      }
    }
  }

  // ---------------------------------------------------------------- removeDoc

  /** `docs.find(d => d.id === id)`. */
  function FindById(docs: seq<DocItem>, id: string): (found: Option<DocItem>)
    ensures found.Some? ==> found.value in docs && found.value.id == id
    ensures found.None? ==> forall d :: d in docs ==> d.id != id
  {
    if docs == [] then None
    else if docs[0].id == id then Some(docs[0])
    else FindById(docs[1..], id)
  }

  /** `docs.filter(d => d.id !== id)`. */
  function WithoutId(docs: seq<DocItem>, id: string): (r: seq<DocItem>)
    ensures |r| <= |docs|
  {
    if docs == [] then []
    else (if docs[0].id != id then [docs[0]] else []) + WithoutId(docs[1..], id)
  }

  /** The filter keeps exactly the documents with another id. */
  lemma {:induction false} WithoutIdMembers(docs: seq<DocItem>, id: string)
    ensures forall d :: d in WithoutId(docs, id) <==> d in docs && d.id != id
  {
    if docs != [] {
      WithoutIdMembers(docs[1..], id);
      var head := if docs[0].id != id then [docs[0]] else [];
      assert WithoutId(docs, id) == head + WithoutId(docs[1..], id);
      assert docs == [docs[0]] + docs[1..];
    }
  }

  /** `removeDoc`: drops the documents with that id, but only when the first
      of them is a prior-art reference; anything else leaves the list as it
      is. */
  function RemoveDoc(docs: seq<DocItem>, id: string): (r: seq<DocItem>)
    ensures |r| <= |docs|
    ensures r != docs ==> FindById(docs, id).Some? && FindById(docs, id).value.category == PRIOR
  {
    var found := FindById(docs, id);
    if found.Some? && found.value.category == PRIOR then WithoutId(docs, id) else docs
  }

  /** A removal either changes nothing or drops exactly the documents with
      that id. */
  lemma RemoveDocMembers(docs: seq<DocItem>, id: string)
    ensures RemoveDoc(docs, id) == docs ||
            forall d :: d in RemoveDoc(docs, id) <==> d in docs && d.id != id
  {
    WithoutIdMembers(docs, id);
  }

  lemma {:induction false} FindByIdAt(docs: seq<DocItem>, id: string) returns (i: nat)
    requires FindById(docs, id).Some?
    ensures i < |docs| && docs[i] == FindById(docs, id).value
    ensures forall j :: 0 <= j < i ==> docs[j].id != id
  {
    if docs[0].id == id {
      i := 0;
    } else {
      var k := FindByIdAt(docs[1..], id);
      i := k + 1;
    }
  }

  lemma {:induction false} WithoutAbsentId(docs: seq<DocItem>, id: string)
    requires forall d :: d in docs ==> d.id != id
    ensures WithoutId(docs, id) == docs
  {
    if docs != [] {
      WithoutAbsentId(docs[1..], id);
      assert [docs[0]] + docs[1..] == docs;
    }
  }

  /** Distinct ids stay distinct in the tail, and the head's id is not in it. */
  lemma UniqueIdsTail(docs: seq<DocItem>)
    requires UniqueIds(docs) && docs != []
    ensures UniqueIds(docs[1..])
    ensures forall d :: d in docs[1..] ==> d.id != docs[0].id
  {
    forall a, b | 0 <= a < b < |docs| - 1 ensures docs[1..][a].id != docs[1..][b].id {
      assert docs[1..][a] == docs[a + 1] && docs[1..][b] == docs[b + 1];
    }
    forall d | d in docs[1..] ensures d.id != docs[0].id {
      var j :| 0 <= j < |docs[1..]| && docs[1..][j] == d;
      assert docs[j + 1] == d;
    }
  }

  /** With distinct ids, looking a document's id up finds that document. */
  lemma {:induction false} FindByIdOfMember(docs: seq<DocItem>, d: DocItem)
    requires UniqueIds(docs) && d in docs
    ensures FindById(docs, d.id) == Some(d)
  {
    UniqueIdsTail(docs);
    if docs[0] != d {
      assert docs == [docs[0]] + docs[1..];
      assert d in docs[1..];
      FindByIdOfMember(docs[1..], d);
    }
  }

  lemma {:induction false} WithoutIdAppend(a: seq<DocItem>, b: seq<DocItem>, id: string)
    ensures WithoutId(a + b, id) == WithoutId(a, id) + WithoutId(b, id)
  {
    if a != [] {
      assert (a + b)[1..] == a[1..] + b;
      WithoutIdAppend(a[1..], b, id);
    } else {
      assert a + b == b;
    }
  }

  /** With distinct ids, no document before or after position `i` has the id
      of the document at `i`. */
  lemma IdOnlyAt(docs: seq<DocItem>, i: nat)
    requires UniqueIds(docs) && i < |docs|
    ensures forall d :: d in docs[..i] ==> d.id != docs[i].id
    ensures forall d :: d in docs[i + 1..] ==> d.id != docs[i].id
  {
    forall d | d in docs[..i] ensures d.id != docs[i].id {
      var j :| 0 <= j < i && docs[..i][j] == d;
      assert docs[j] == d;
    }
    forall d | d in docs[i + 1..] ensures d.id != docs[i].id {
      var j :| 0 <= j < |docs[i + 1..]| && docs[i + 1..][j] == d;
      assert docs[i + 1 + j] == d;
    }
  }

  /** Filtering out a document's id drops that document and filters the
      documents on either side of it. */
  lemma WithoutIdAround(a: seq<DocItem>, d: DocItem, b: seq<DocItem>)
    ensures WithoutId(a + [d] + b, d.id) == WithoutId(a, d.id) + WithoutId(b, d.id)
  {
    WithoutIdAppend(a + [d], b, d.id);
    WithoutIdAppend(a, [d], d.id);
    assert WithoutId([d], d.id) == [] by {
      assert [d][1..] == [];
    }
  }

  /** With distinct ids, filtering out the id of the document at `i` removes
      exactly that document. */
  lemma WithoutUniqueId(docs: seq<DocItem>, i: nat)
    requires UniqueIds(docs) && i < |docs|
    ensures WithoutId(docs, docs[i].id) == docs[..i] + docs[i + 1..]
  {
    var id := docs[i].id;
    var before, after := docs[..i], docs[i + 1..];
    assert WithoutId(docs, id) == WithoutId(before, id) + WithoutId(after, id) by {
      assert docs == before + [docs[i]] + after;
      WithoutIdAround(before, docs[i], after);
    }
    assert WithoutId(before, id) == before by {
      IdOnlyAt(docs, i);
      WithoutAbsentId(before, id);
    }
    assert WithoutId(after, id) == after by {
      IdOnlyAt(docs, i);
      WithoutAbsentId(after, id);
    }
  }

  /** With distinct ids, a removal that changes the list removes exactly one
      document, a prior-art reference. */
  lemma RemovedDocAt(docs: seq<DocItem>, id: string) returns (i: nat)
    requires UniqueIds(docs) && RemoveDoc(docs, id) != docs
    ensures i < |docs| && docs[i] == FindById(docs, id).value && docs[i].category == PRIOR
    ensures RemoveDoc(docs, id) == docs[..i] + docs[i + 1..]
  {
    i := FindByIdAt(docs, id);
    WithoutUniqueId(docs, i);
  }

  /** Selecting a category around a removed position. */
  lemma OfCategoryRemoveAt(docs: seq<DocItem>, i: nat, c: Category)
    requires i < |docs|
    ensures OfCategory(docs[..i] + docs[i + 1..], c) == OfCategory(docs[..i], c) + OfCategory(docs[i + 1..], c)
    ensures OfCategory(docs, c) ==
            OfCategory(docs[..i], c) + (if docs[i].category == c then [docs[i]] else []) + OfCategory(docs[i + 1..], c)
  {
    assert docs == docs[..i] + [docs[i]] + docs[i + 1..];
    OfCategoryAppend(docs[..i], docs[i + 1..], c);
    OfCategoryAppend(docs[..i] + [docs[i]], docs[i + 1..], c);
    OfCategoryAppend(docs[..i], [docs[i]], c);
    assert OfCategory([docs[i]], c) == if docs[i].category == c then [docs[i]] else [];
  }

  lemma UniqueIdsRemoveAt(docs: seq<DocItem>, i: nat)
    requires UniqueIds(docs) && i < |docs|
    ensures UniqueIds(docs[..i] + docs[i + 1..])
  {
    var r := docs[..i] + docs[i + 1..];
    forall a, b | 0 <= a < b < |r| ensures r[a].id != r[b].id {
      var a', b' := if a < i then a else a + 1, if b < i then b else b + 1;
      assert r[a] == docs[a'] && r[b] == docs[b'];
    }
  }

  /** With distinct ids, removal never touches the office action or the
      claims: every category other than prior art stays as it was, in order. */
  lemma RemoveDocSparesOaAndApp(docs: seq<DocItem>, id: string, c: Category)
    requires UniqueIds(docs) && c != PRIOR
    ensures OfCategory(RemoveDoc(docs, id), c) == OfCategory(docs, c)
  {
    if RemoveDoc(docs, id) != docs {
      var i := RemovedDocAt(docs, id);
      OfCategoryRemoveAt(docs, i, c);
    }
  }

  /** With distinct ids, removal drops at most one document and ids stay
      distinct. */
  lemma RemoveDocRemovesAtMostOne(docs: seq<DocItem>, id: string)
    requires UniqueIds(docs)
    ensures |docs| - 1 <= |RemoveDoc(docs, id)| <= |docs|
    ensures UniqueIds(RemoveDoc(docs, id))
  {
    if RemoveDoc(docs, id) != docs {
      var i := RemovedDocAt(docs, id);
      UniqueIdsRemoveAt(docs, i);
    }
  }

  /** With distinct ids, removing a reference that is present drops it, so
      one reference fewer remains. */
  lemma RemoveReference(docs: seq<DocItem>, d: DocItem)
    requires UniqueIds(docs) && d in docs && d.category == PRIOR
    ensures RemoveDoc(docs, d.id) == WithoutId(docs, d.id)
    ensures |OfCategory(RemoveDoc(docs, d.id), PRIOR)| == |OfCategory(docs, PRIOR)| - 1
  {
    FindByIdOfMember(docs, d);
    var removed := RemoveDoc(docs, d.id);
    assert removed != docs by {
      WithoutIdMembers(docs, d.id);
      assert d !in removed;
    }
    var i := RemovedDocAt(docs, d.id);
    OfCategoryRemoveAt(docs, i, PRIOR);
  }

  /** Removing one id keeps every document with another id. */
  lemma RemoveKeepsOthers(docs: seq<DocItem>, id: string, e: DocItem)
    requires e in docs && e.id != id
    ensures e in RemoveDoc(docs, id)
  {
    WithoutIdMembers(docs, id);
  }

  /** With distinct ids, after removing a reference the next reference added
      is numbered as the count before the removal, and any other document is
      still there. */
  lemma RemoveThenAddNumbering(docs: seq<DocItem>, freshId: string, d: DocItem, e: DocItem)
    requires UniqueIds(docs) && d in docs && d.category == PRIOR
    requires e in docs && e.id != d.id
    ensures e in RemoveDoc(docs, d.id)
    ensures AddPriorArt(RemoveDoc(docs, d.id), freshId)[|RemoveDoc(docs, d.id)|].caption ==
            PriorLabel(|OfCategory(docs, PRIOR)|)
  {
    var removed := RemoveDoc(docs, d.id);
    assert e in removed by {
      RemoveKeepsOthers(docs, d.id, e);
    }
    assert |OfCategory(removed, PRIOR)| + 1 == |OfCategory(docs, PRIOR)| by {
      RemoveReference(docs, d);
    }
    AddPriorArtNumbering(removed, freshId);
  }

  /** Labels count the references present; they do not identify them. After
      removing the first of several numbered references, the next reference
      added repeats the label of the last one, which is still there. */
  lemma RemoveThenAddRepeatsLabel(docs: seq<DocItem>, freshId: string)
    requires UniqueIds(docs) && PriorsNumbered(docs)
    requires |OfCategory(docs, PRIOR)| >= 2
    ensures var priors := OfCategory(docs, PRIOR);
            var removed := RemoveDoc(docs, priors[0].id);
            var last := priors[|priors| - 1];
            last in removed && AddPriorArt(removed, freshId)[|removed|].caption == last.caption
  {
    var priors := OfCategory(docs, PRIOR);
    var n := |priors|;
    var first, last := priors[0], priors[n - 1];
    assert first in docs && last in docs by {
      OfCategoryMembers(docs, PRIOR);
    }
    assert last.id != first.id by {
      PriorLabelsDistinct(docs, 0, n - 1);
      FindByIdOfMember(docs, first);
      FindByIdOfMember(docs, last);
    }
    assert last.caption == PriorLabel(n);
    RemoveThenAddNumbering(docs, freshId, first, last);
  }

  /** With distinct ids, removing a reference that is the first of its
      category: the references left are exactly the ones after it. */
  lemma RemoveFirstReference(docs: seq<DocItem>)
    requires UniqueIds(docs) && PriorsNumbered(docs) && |OfCategory(docs, PRIOR)| >= 1
    ensures OfCategory(RemoveDoc(docs, OfCategory(docs, PRIOR)[0].id), PRIOR) == OfCategory(docs, PRIOR)[1..]
  {
    var priors := OfCategory(docs, PRIOR);
    var first := priors[0];
    assert first in docs by {
      OfCategoryMembers(docs, PRIOR);
    }
    assert RemoveDoc(docs, first.id) != docs by {
      RemoveReference(docs, first);
    }
    FindByIdOfMember(docs, first);
    var i := RemovedDocAt(docs, first.id);
    var before, after := OfCategory(docs[..i], PRIOR), OfCategory(docs[i + 1..], PRIOR);
    OfCategoryRemoveAt(docs, i, PRIOR);
    assert priors == before + [first] + after;
    assert before == [] by {
      assert priors[|before|] == first;
    }
    assert priors[1..] == after;
  }

  /** Removal does not renumber: once the first of several references is
      removed, the references left are no longer numbered D1, D2, ... */
  lemma RemoveFirstBreaksNumbering(docs: seq<DocItem>)
    requires UniqueIds(docs) && PriorsNumbered(docs) && |OfCategory(docs, PRIOR)| >= 2
    ensures !PriorsNumbered(RemoveDoc(docs, OfCategory(docs, PRIOR)[0].id))
  {
    var priors := OfCategory(docs, PRIOR);
    var left := OfCategory(RemoveDoc(docs, priors[0].id), PRIOR);
    assert left == priors[1..] by {
      RemoveFirstReference(docs);
    }
    assert left[0].caption == PriorLabel(2);
    assert PriorLabel(2) != PriorLabel(1);
  }

  // ---------------------------------------------------------------- updateDoc

  /** `{ ...d, ...updates }`. */
  function Merge(d: DocItem, u: DocUpdate): (r: DocItem)
    ensures (u.id.Some? ==> r.id == u.id.value) && (u.id.None? ==> r.id == d.id)
    ensures (u.category.Some? ==> r.category == u.category.value) && (u.category.None? ==> r.category == d.category)
    ensures (u.caption.Some? ==> r.caption == u.caption.value) && (u.caption.None? ==> r.caption == d.caption)
    ensures (u.text.Some? ==> r.text == u.text.value) && (u.text.None? ==> r.text == d.text)
    ensures (u.file.Some? ==> r.file == u.file.value) && (u.file.None? ==> r.file == d.file)
  {
    DocItem(u.id.GetOr(d.id), u.category.GetOr(d.category), u.caption.GetOr(d.caption),
            u.text.GetOr(d.text), u.file.GetOr(d.file))
  }

  /** Applying the same edit twice is applying it once. */
  lemma MergeAgain(d: DocItem, u: DocUpdate)
    ensures Merge(Merge(d, u), u) == Merge(d, u)
  {
  }

  /** `updateDoc`: every document with that id gets the given fields, every
      other document stays as it is, and the order is kept. */
  function UpdateDoc(docs: seq<DocItem>, id: string, u: DocUpdate): (r: seq<DocItem>)
    ensures |r| == |docs|
    ensures forall i :: 0 <= i < |docs| ==>
              r[i] == if docs[i].id == id then Merge(docs[i], u) else docs[i]
  {
    if docs == [] then []
    else [if docs[0].id == id then Merge(docs[0], u) else docs[0]] + UpdateDoc(docs[1..], id, u)
  }

  lemma UpdateDocAppend(a: seq<DocItem>, b: seq<DocItem>, id: string, u: DocUpdate)
    ensures UpdateDoc(a + b, id, u) == UpdateDoc(a, id, u) + UpdateDoc(b, id, u)
  {
    var l, r := UpdateDoc(a + b, id, u), UpdateDoc(a, id, u) + UpdateDoc(b, id, u);
    assert forall i :: 0 <= i < |l| ==> l[i] == r[i] by {
      forall i | 0 <= i < |l| ensures l[i] == r[i] {
        if i >= |a| {
          assert (a + b)[i] == b[i - |a|];
        }
      }
    }
  }

  /** An update that leaves the category alone commutes with selecting a
      category. */
  lemma {:induction false} UpdateOfCategory(docs: seq<DocItem>, id: string, u: DocUpdate, c: Category)
    requires u.category.None?
    ensures OfCategory(UpdateDoc(docs, id, u), c) == UpdateDoc(OfCategory(docs, c), id, u)
  {
    if docs != [] {
      var d, rest := docs[0], docs[1..];
      assert docs == [d] + rest;
      UpdateDocAppend([d], rest, id, u);
      OfCategoryAppend(UpdateDoc([d], id, u), UpdateDoc(rest, id, u), c);
      OfCategoryAppend([d], rest, c);
      UpdateDocAppend(OfCategory([d], c), OfCategory(rest, c), id, u);
      UpdateOfCategory(rest, id, u, c);
      assert OfCategory(UpdateDoc([d], id, u), c) == UpdateDoc(OfCategory([d], c), id, u);
    }
  }

  /** Editing a document's text or file (the only edits the screen makes)
      keeps the ids distinct. */
  lemma UpdateKeepsIds(docs: seq<DocItem>, id: string, u: DocUpdate)
    requires u.id.None? && UniqueIds(docs)
    ensures UniqueIds(UpdateDoc(docs, id, u))
  {
    var r := UpdateDoc(docs, id, u);
    assert forall i :: 0 <= i < |docs| ==> r[i].id == docs[i].id;
  }

  /** Editing a document's text or file keeps the references, their number
      and their numbering. */
  lemma UpdateKeepsLibraryShape(docs: seq<DocItem>, id: string, u: DocUpdate)
    requires u.category.None? && u.caption.None?
    ensures PriorsNumbered(docs) ==> PriorsNumbered(UpdateDoc(docs, id, u))
    ensures |OfCategory(UpdateDoc(docs, id, u), PRIOR)| == |OfCategory(docs, PRIOR)|
  {
    var before, after := OfCategory(docs, PRIOR), OfCategory(UpdateDoc(docs, id, u), PRIOR);
    assert after == UpdateDoc(before, id, u) by {
      UpdateOfCategory(docs, id, u, PRIOR);
    }
    if PriorsNumbered(docs) {
      forall k | 0 <= k < |after| ensures after[k].caption == PriorLabel(k + 1) {
        assert after[k].caption == before[k].caption;
      }
    }
  }

  /** Editing text never changes what is attached. */
  lemma {:induction false} UpdateTextKeepsAttachments(docs: seq<DocItem>, id: string, text: string)
    ensures MediaItemsOf(UpdateDoc(docs, id, TextUpdate(text))) == MediaItemsOf(docs)
  {
    if docs != [] {
      var r := UpdateDoc(docs, id, TextUpdate(text));
      assert r[1..] == UpdateDoc(docs[1..], id, TextUpdate(text));
      UpdateTextKeepsAttachments(docs[1..], id, text);
    }
  }

  /** The screen's upload callback for one document: stores the picked file
      (payload field, type or the PDF default, name) in that document only;
      no pick, or a reader result that is not a string, changes nothing. */
  function HandleFileUpload(docs: seq<DocItem>, id: string, picked: Option<PickedFile>): (r: seq<DocItem>)
    ensures |r| == |docs|
    ensures forall i :: 0 <= i < |docs| && docs[i].id != id ==> r[i] == docs[i]
    ensures picked.None? || !picked.value.result.TextResult? ==> r == docs
    ensures picked.Some? && picked.value.result.TextResult? ==>
              forall i :: 0 <= i < |docs| && docs[i].id == id ==>
                r[i] == docs[i].(file := MediaFromUpload(picked.value))
  {
    if picked.None? then docs
    else match MediaFromUpload(picked.value)
      case None => docs
      case Some(media) => UpdateDoc(docs, id, FileUpdate(Some(media)))
  }

  // ---------------------------------------------------------------- handleAnalyze

  /** A document with text typed in or a file attached. */
  predicate HasContent(d: DocItem) {
    d.text != "" || d.file.Some?
  }

  /** `hasOA`: some office-action document has content. Readiness depends on
      the office-action documents alone. */
  function HasOA(docs: seq<DocItem>): (ready: bool)
    ensures ready <==> exists d :: d in OfCategory(docs, OA) && HasContent(d)
  {
    OfCategoryKeepsAll(docs, OA);
    OfCategoryMembers(docs, OA);
    exists i :: 0 <= i < |docs| && docs[i].category == OA && HasContent(docs[i])
  }

  /** `[label]:\n` followed by the text, or the attachment placeholder. */
  function DocBlock(d: DocItem): string {
    "[" + d.caption + "]:\n" + ShownText(d.text)
  }

  function Blocks(docs: seq<DocItem>): (blocks: seq<string>)
    ensures |blocks| == |docs|
    ensures forall i :: 0 <= i < |docs| ==> blocks[i] == DocBlock(docs[i])
  {
    if docs == [] then [] else [DocBlock(docs[0])] + Blocks(docs[1..])
  }

  /** `contextText`: the documents' blocks in list order, blank-line separated. */
  function ContextText(docs: seq<DocItem>): (context: string)
    ensures docs == [] ==> context == ""
    ensures |docs| == 1 ==> context == DocBlock(docs[0])
    ensures docs != [] ==> |context| >= |DocBlock(docs[0])| && context[..|DocBlock(docs[0])|] == DocBlock(docs[0])
  {
    Text.Join(Blocks(docs), "\n\n")
  }

  /** Appending a document appends its block after a blank line. */
  lemma ContextTextAppend(docs: seq<DocItem>, d: DocItem)
    requires docs != []
    ensures ContextText(docs + [d]) == ContextText(docs) + "\n\n" + DocBlock(d)
  {
    assert Blocks(docs + [d]) == Blocks(docs) + [DocBlock(d)];
    Text.JoinSnoc(Blocks(docs), DocBlock(d), "\n\n");
  }

  /** A new reference shows up at the end of the context as its label and
      the attachment placeholder. */
  lemma AddPriorArtContext(docs: seq<DocItem>, freshId: string)
    requires docs != []
    ensures ContextText(AddPriorArt(docs, freshId)) ==
            ContextText(docs) + "\n\n" + ("[" + PriorLabel(|OfCategory(docs, PRIOR)| + 1) + "]:\n" + SeeAttachment)
  {
    var r := AddPriorArt(docs, freshId);
    var added := r[|docs|];
    assert r == docs + [added];
    assert DocBlock(added) == "[" + PriorLabel(|OfCategory(docs, PRIOR)| + 1) + "]:\n" + SeeAttachment;
    ContextTextAppend(docs, added);
  }

  /** `mediaItems`: the files of the documents that have one, in document
      order. */
  function MediaItemsOf(docs: seq<DocItem>): (items: seq<Gemini.MediaItem>)
    ensures |items| <= |docs|
  {
    if docs == [] then []
    else
      (if docs[0].file.Some? then [ToMediaItem(docs[0].file.value)] else []) + MediaItemsOf(docs[1..])
  }

  /** There are no attachments exactly when no document has a file. */
  lemma {:induction false} NoAttachmentsWithoutFiles(docs: seq<DocItem>)
    ensures MediaItemsOf(docs) == [] <==> forall i :: 0 <= i < |docs| ==> docs[i].file.None?
  {
    if docs != [] {
      NoAttachmentsWithoutFiles(docs[1..]);
      assert forall i :: 0 <= i < |docs[1..]| ==> docs[1..][i] == docs[i + 1];
      if forall i :: 0 <= i < |docs[1..]| ==> docs[1..][i].file.None? {
        assert forall i :: 1 <= i < |docs| ==> docs[i].file.None? by {
          forall i | 1 <= i < |docs| ensures docs[i].file.None? {
            assert docs[1..][i - 1] == docs[i];
          }
        }
      }
    }
  }

  /** Attachments of a concatenation are the attachments of each part, in
      order. */
  lemma {:induction false} MediaItemsOfAppend(a: seq<DocItem>, b: seq<DocItem>)
    ensures MediaItemsOf(a + b) == MediaItemsOf(a) + MediaItemsOf(b)
  {
    if a == [] {
      assert a + b == b;
    } else {
      var head := if a[0].file.Some? then [ToMediaItem(a[0].file.value)] else [];
      assert (a + b)[0] == a[0];
      assert (a + b)[1..] == a[1..] + b;
      assert MediaItemsOf(a + b) == head + MediaItemsOf(a[1..] + b);
      MediaItemsOfAppend(a[1..], b);
      assert MediaItemsOf(a) == head + MediaItemsOf(a[1..]);
    }
  }

  /** Every document's file is attached, unchanged, after the attachments of
      the documents before it and before those of the documents after it. */
  lemma MediaItemsOfSplitAt(docs: seq<DocItem>, i: nat)
    requires i < |docs|
    ensures MediaItemsOf(docs) ==
            MediaItemsOf(docs[..i]) +
            ((if docs[i].file.Some? then [ToMediaItem(docs[i].file.value)] else []) + MediaItemsOf(docs[i + 1..]))
  {
    var rest := docs[i..];
    assert docs == docs[..i] + rest;
    MediaItemsOfAppend(docs[..i], rest);
    assert rest[0] == docs[i] && rest[1..] == docs[i + 1..];
  }

  const SystemInstruction := @"你是一个拥有20年经验的资深专利代理人，精通中美欧专利法。
      任务：基于用户提供的完整案件卷宗（包含通知书、本申请、及多份对比文件），进行深度创造性分析。
      
      工作逻辑：
      1. 必须准确区分 [OA通知书]、[本申请] 和 [对比文件 D1, D2...]。
      2. 严格执行创造性分析“三步法”：
         - 确定最接近的现有技术（通常是 D1）。
         - 确定本申请与 D1 的区别特征及其实际解决的技术问题。
         - 判断现有技术（D1, D2...）是否给出了将该区别特征应用到最接近现有技术以解决该技术问题的启示。
      3. 重点寻找审查员在结合 D1 和 D2 时是否存在“事后诸葛亮”的逻辑缺陷。
      4. 输出：一份专业的分析报告 + 三套抗辩策略。使用 Markdown。"

  /** The adapter call `handleAnalyze` makes, or None when no office-action
      document has content. */
  function AnalyzeCall(docs: seq<DocItem>): (call: Option<Gemini.TaskCall>)
    ensures call.Some? <==> HasOA(docs)
    ensures call.Some? ==> call.value.useThinking && call.value.useSearch
    ensures call.Some? ==> call.value.systemInstruction == SystemInstruction
    ensures call.Some? ==> call.value.prompt == ContextText(docs) && call.value.mediaItems == Some(MediaItemsOf(docs))
  {
    if HasOA(docs) then
      Some(Gemini.TaskCall(ContextText(docs), SystemInstruction, true, true, Some(MediaItemsOf(docs))))
    else None
  }

  /** The request sent for a ready library: the context text, then one part
      per attached file in document order, thinking and search on; with no
      file the context is the only part. */
  lemma AnalyzeRequest(docs: seq<DocItem>)
    requires HasOA(docs)
    ensures var req := Gemini.RequestFor(AnalyzeCall(docs).value);
            req.parts[0] == Gemini.TextPart(ContextText(docs)) &&
            Gemini.AttachmentsOf(req.parts[1..]) == MediaItemsOf(docs) &&
            req.config.thinkingConfig.Some? && req.config.tools.Some? &&
            (MediaItemsOf(docs) == [] ==> |req.parts| == 1)
  {
    Gemini.RequestRoundTrip(AnalyzeCall(docs).value);
  }

  // ---------------------------------------------------------------- screen state

  datatype OAState = OAState(loading: bool, docs: seq<DocItem>, result: Option<Gemini.AnalysisResult>)

  /** The screen as it opens: idle, no result, and the three-document
      library, with nothing to analyse yet. */
  function InitialState(): (s: OAState)
    ensures !s.loading && s.result.None?
    ensures |s.docs| == 3 && UniqueIds(s.docs) && PriorsNumbered(s.docs)
    ensures AnalyzeCall(s.docs).None?
  {
    InitialLibrary();
    InitialLibraryEmpty();
    OAState(false, InitialDocs(), None)
  }

  /** What `handleAnalyze` sets before awaiting the adapter. */
  function BeginAnalyze(s: OAState): (pending: OAState)
    ensures pending.loading && pending.docs == s.docs && pending.result.None?
  {
    s.(loading := true, result := None)
  }

  /** What `handleAnalyze` sets once the adapter settles. */
  function FinishAnalyze(s: OAState, settled: Result<Gemini.AnalysisResult, Gemini.ServiceError>): (after: OAState)
    ensures !after.loading && after.docs == s.docs
    ensures settled.Success? ==> after.result == Some(settled.value)
    ensures settled.Failure? ==> after.result == s.result
  {
    s.(loading := false, result := if settled.Success? then Some(settled.value) else s.result)
  }

  /** After an analysis the library is unchanged and loading is off; the
      result is the adapter's on success and cleared on failure. */
  lemma AnalyzeSettles(s: OAState, outcome: Gemini.CallOutcome)
    ensures var after := FinishAnalyze(BeginAnalyze(s), Gemini.Settle(outcome));
            !after.loading && after.docs == s.docs &&
            (outcome.Raised? ==> after.result.None?) &&
            (outcome.Replied? ==> after.result == Some(Gemini.ToAnalysisResult(outcome.response)))
  {
  }

  /** `handleAnalyze`: nothing happens unless the library is ready; otherwise
      exactly one adapter call, whose outcome becomes the result. */
  method HandleAnalyze(client: Gemini.ModelsClient, s: OAState) returns (after: OAState)
    modifies client
    ensures !HasOA(s.docs) ==> after == s && client.sent == old(client.sent)
    ensures HasOA(s.docs) ==>
              var req := Gemini.RequestFor(AnalyzeCall(s.docs).value);
              client.sent == old(client.sent) + [req] &&
              after == FinishAnalyze(BeginAnalyze(s), Gemini.Settle(client.answer(|old(client.sent)|, req)))
  {
    var call := AnalyzeCall(s.docs);
    if call.None? {
      return s;
    }
    var pending := BeginAnalyze(s);
    var settled := Gemini.Run(client, call.value);
    after := FinishAnalyze(pending, settled);
  }
}
