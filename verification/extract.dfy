/** The product extractor: every per-keyword result file contributes the items
    of its `data.b2c.onSaleList`, mapped to `{item, price}` and grouped under
    the keyword spelled by the file name. One seen-set of (name, price) keys is
    shared by all files, so a product is kept only the first time its key
    appears anywhere in the run. */
module Extract {
  import opened Wrappers
  import opened JsonValues
  import Strings

  const ResultPrefix := "search_results_"
  const ResultSuffix := ".json"

  /** The keyword a result file stands for: its name with every occurrence of
      the prefix and then of the suffix removed. */
  function KeywordOf(fileName: string): (r: string)
    ensures |r| <= |fileName|
  {
    Strings.RemoveAll(Strings.RemoveAll(fileName, ResultPrefix), ResultSuffix)
  }

  /** The name under which the keyword driver writes a keyword's results. */
  function ResultFileName(keyword: string): string
  {
    ResultPrefix + keyword + ResultSuffix
  }

  /** Reading the keyword back from the file name the driver writes gives the
      keyword, as long as the keyword does not itself spell the prefix or suffix. */
  lemma KeywordOfResultFileName(k: string)
    requires !Strings.Contains(k, ResultPrefix) && !Strings.Contains(k, ResultSuffix)
    ensures KeywordOf(ResultFileName(k)) == k
  {
    StripPrefix(k);
    StripSuffix(k);
  }

  /** A name that spells neither the prefix nor the suffix is its own keyword. */
  lemma KeywordOfPlainName(fileName: string)
    requires !Strings.Contains(fileName, ResultPrefix) && !Strings.Contains(fileName, ResultSuffix)
    ensures KeywordOf(fileName) == fileName
  {
    Strings.RemoveAllAbsent(fileName, ResultPrefix);
    Strings.RemoveAllAbsent(fileName, ResultSuffix);
  }

  lemma StripPrefix(k: string)
    requires !Strings.Contains(k, ResultPrefix)
    ensures Strings.RemoveAll(ResultFileName(k), ResultPrefix) == k + ResultSuffix
  {
    var name := ResultFileName(k);
    var afterPrefix := k + ResultSuffix;
    assert name[..|ResultPrefix|] == ResultPrefix && name[|ResultPrefix|..] == afterPrefix;
    Strings.NoMatchBeforeSuffix(k, ResultSuffix, ResultPrefix);
    Strings.RemoveAllKeepsUnmatchedPrefix(afterPrefix, |k|, ResultPrefix);
    assert afterPrefix[..|k|] == k && afterPrefix[|k|..] == ResultSuffix;
  }

  lemma StripSuffix(k: string)
    requires !Strings.Contains(k, ResultSuffix)
    ensures Strings.RemoveAll(k + ResultSuffix, ResultSuffix) == k
  {
    var afterPrefix := k + ResultSuffix;
    Strings.NoMatchBeforeSuffix(k, ResultSuffix, ResultSuffix);
    Strings.RemoveAllKeepsUnmatchedPrefix(afterPrefix, |k|, ResultSuffix);
    assert afterPrefix[..|k|] == k && afterPrefix[|k|..] == ResultSuffix;
    assert Strings.RemoveAll(ResultSuffix, ResultSuffix) == Strings.RemoveAll("", ResultSuffix);
    assert k + "" == k;
  }

  /** One result file: its name and its content, `None` when the text is not
      valid JSON (loading it raises). */
  datatype ResultFile = ResultFile(name: string, content: Option<Json>)

  /** One catalog entry; the price is `priceUnits / 100` in major currency units. */
  datatype Product = Product(item: Json, priceUnits: int)

  /** The de-duplication identity: goods name and price. */
  datatype Key = Key(name: Json, priceUnits: int)

  function KeyOf(p: Product): Key
  {
    Key(p.item, p.priceUnits)
  }

  /** One step of the `data.b2c.onSaleList` test: Python's `key in j`, and when
      that holds, the `j[key]` that follows it. `Some(None)` when the test is
      false, `Some(Some(v))` for the value found, and `None` when either raises:
      `in` on null, a number or a boolean, or indexing a list or string that the
      test matched (list membership, substring). */
  function Lookup(j: Json, key: string): (r: Option<Option<Json>>)
    ensures r == Some(None) <==> (j.Obj? && key !in j.fields) || (j.Arr? && Str(key) !in j.items)
                                 || (j.Str? && !Strings.Contains(j.s, key))
    ensures (r.Some? && r.value.Some?) <==> j.Obj? && key in j.fields
    ensures r.Some? && r.value.Some? ==> r.value.value == j.fields[key]
  {
    match j
    case Obj(m) => if key in m then Some(Some(m[key])) else Some(None)
    case Arr(a) => if Str(key) in a then None else Some(None)
    case Str(s) => if Strings.Contains(s, key) then None else Some(None)
    case _ => None
  }

  /** Null, numbers and booleans: `key in j` raises on them. */
  predicate Scalar(j: Json)
  {
    j.Null? || j.Bool? || j.Num?
  }

  /** The items iterated for a document: those of `data.b2c.onSaleList`; none
      when the path test is false; `None` when the test or an index raises, or
      when the list value cannot be iterated into item objects (iterating a
      non-empty string or dict yields strings, which cannot be indexed by a key;
      numbers, booleans and null are not iterable). */
  function SaleItems(doc: Json): (r: Option<seq<Json>>)
    ensures Scalar(doc) ==> r.None?
    ensures doc.Obj? && "data" in doc.fields && Scalar(doc.fields["data"]) ==> r.None?
    ensures (&& doc.Obj? && "data" in doc.fields && doc.fields["data"].Obj? && "b2c" in doc.fields["data"].fields
             && Scalar(doc.fields["data"].fields["b2c"])) ==> r.None?
    ensures ObjectPathMissing(doc) ==> r == Some([])
    ensures ObjectPath(doc) && OnSaleListAt(doc).Arr? ==> r == Some(OnSaleListAt(doc).items)
    ensures ObjectPath(doc) && Scalar(OnSaleListAt(doc)) ==> r.None?
    ensures ObjectPath(doc) && (OnSaleListAt(doc).Str? || OnSaleListAt(doc).Obj?) ==>
              (r == Some([]) <==> !Truthy(OnSaleListAt(doc))) && (r.None? <==> Truthy(OnSaleListAt(doc)))
    ensures r.Some? && |r.value| > 0 ==> ObjectPath(doc) && OnSaleListAt(doc) == Arr(r.value)
  {
    match Lookup(doc, "data")
    case None => None
    case Some(None) => Some([])
    case Some(Some(data)) =>
      match Lookup(data, "b2c")
      case None => None
      case Some(None) => Some([])
      case Some(Some(b2c)) =>
        match Lookup(b2c, "onSaleList")
        case None => None
        case Some(None) => Some([])
        case Some(Some(list)) =>
          match list
          case Arr(items) => Some(items)
          case Obj(m) => if |m| == 0 then Some([]) else None
          case Str(s) => if |s| == 0 then Some([]) else None
          case _ => None
  }

  /** The document, `data` and `b2c` are objects and `b2c` holds `onSaleList`. */
  predicate ObjectPath(doc: Json)
  {
    && doc.Obj? && "data" in doc.fields
    && doc.fields["data"].Obj? && "b2c" in doc.fields["data"].fields
    && doc.fields["data"].fields["b2c"].Obj? && "onSaleList" in doc.fields["data"].fields["b2c"].fields
  }

  /** The value at `data.b2c.onSaleList`. */
  function OnSaleListAt(doc: Json): Json
    requires ObjectPath(doc)
  {
    doc.fields["data"].fields["b2c"].fields["onSaleList"]
  }

  /** The document is an object, and so is every level reached, but one of
      `data`, `b2c`, `onSaleList` is not there. */
  predicate ObjectPathMissing(doc: Json)
  {
    && doc.Obj?
    && ("data" !in doc.fields
        || (doc.fields["data"].Obj?
            && ("b2c" !in doc.fields["data"].fields
                || (doc.fields["data"].fields["b2c"].Obj?
                    && "onSaleList" !in doc.fields["data"].fields["b2c"].fields))))
  }

  /** `memberPrice / 100` needs a number; a Python bool counts as 0 or 1. */
  function PriceUnits(j: Json): Option<int>
  {
    match j
    case Num(n) => Some(n)
    case Bool(b) => Some(if b then 1 else 0)
    case _ => None
  }

  /** `{"item": item["goodsName"], "price": item["memberPrice"] / 100}`, or `None`
      when the lookup or the division raises. */
  function ProductOf(item: Json): (r: Option<Product>)
    ensures r.Some? <==> item.Obj? && "goodsName" in item.fields && "memberPrice" in item.fields
                         && PriceUnits(item.fields["memberPrice"]).Some?
    ensures r.Some? ==> r.value.item == item.fields["goodsName"]
    ensures r.Some? && item.fields["memberPrice"].Num? ==> r.value.priceUnits == item.fields["memberPrice"].n
  {
    match Member(item, "goodsName")
    case None => None
    case Some(name) =>
      match Member(item, "memberPrice")
      case None => None
      case Some(price) =>
        match PriceUnits(price)
        case None => None
        case Some(units) => Some(Product(name, units))
  }

  // ---------------------------------------------------------------------------
  // The extraction loop, file by file and item by item.

  /** The state of one run: the keyword -> products mapping and the shared seen-set. */
  datatype Catalog = Catalog(products: map<string, seq<Product>>, seen: set<Key>)

  /** No key is listed twice anywhere in the mapping, across all keywords. */
  ghost predicate Unique(m: map<string, seq<Product>>)
  {
    forall k1, i, k2, j ::
      k1 in m && k2 in m && 0 <= i < |m[k1]| && 0 <= j < |m[k2]| && KeyOf(m[k1][i]) == KeyOf(m[k2][j])
      ==> k1 == k2 && i == j
  }

  /** Every keyword present has a product, every listed product's key has been seen,
      and no key is listed twice. */
  ghost predicate Valid(c: Catalog)
  {
    && (forall k :: k in c.products ==> |c.products[k]| > 0)
    && (forall k, i :: k in c.products && 0 <= i < |c.products[k]| ==> KeyOf(c.products[k][i]) in c.seen)
    && Unique(c.products)
  }

  function Append(m: map<string, seq<Product>>, keyword: string, p: Product): map<string, seq<Product>>
  {
    m[keyword := (if keyword in m then m[keyword] else []) + [p]]
  }

  /** One item of one file: appended under the keyword unless its key was seen before. */
  function Record(c: Catalog, keyword: string, p: Product): (r: Catalog)
    requires Valid(c)
    ensures Valid(r)
    ensures KeyOf(p) in r.seen
    ensures KeyOf(p) in c.seen ==> r == c
  {
    if KeyOf(p) in c.seen then c
    else
      var r := Catalog(Append(c.products, keyword, p), c.seen + {KeyOf(p)});
      RecordKeepsValid(c, keyword, p);
      r
  }

  lemma RecordKeepsValid(c: Catalog, keyword: string, p: Product)
    requires Valid(c) && KeyOf(p) !in c.seen
    ensures Valid(Catalog(Append(c.products, keyword, p), c.seen + {KeyOf(p)}))
  {
    var m := c.products;
    var m' := Append(m, keyword, p);
    var n := if keyword in m then |m[keyword]| else 0;
    assert m'[keyword][n] == p;
    forall k, i | k in m' && 0 <= i < |m'[k]| && !(k == keyword && i == n)
      ensures k in m && i < |m[k]| && m'[k][i] == m[k][i] && KeyOf(m'[k][i]) in c.seen
    {
    }
  }

  /** The items of one file in list order; `None` once an item cannot be mapped. */
  function AddItems(c: Catalog, keyword: string, items: seq<Json>): (r: Option<Catalog>)
    requires Valid(c)
    ensures r.Some? ==> Valid(r.value) && c.seen <= r.value.seen
    ensures r.None? <==> exists item :: item in items && ProductOf(item).None?
    decreases |items|
  {
    if |items| == 0 then Some(c)
    else
      match ProductOf(items[0])
      case None => None
      case Some(p) => AddItems(Record(c, keyword, p), keyword, items[1..])
  }

  /** A file whose content does not load, whose sale list cannot be iterated, or
      one of whose items cannot be mapped, ends the whole run. */
  predicate FileFails(f: ResultFile)
  {
    || f.content.None?
    || SaleItems(f.content.value).None?
    || exists item :: item in SaleItems(f.content.value).value && ProductOf(item).None?
  }

  function AddFile(c: Catalog, f: ResultFile): (r: Option<Catalog>)
    requires Valid(c)
    ensures r.Some? ==> Valid(r.value)
  {
    match f.content
    case None => None
    case Some(doc) =>
      match SaleItems(doc)
      case None => None
      case Some(items) => AddItems(c, KeywordOf(f.name), items)
  }

  /** The files in processing order. */
  function AddFiles(c: Catalog, files: seq<ResultFile>): (r: Option<Catalog>)
    requires Valid(c)
    ensures r.Some? ==> Valid(r.value)
    decreases |files|
  {
    if |files| == 0 then Some(c)
    else
      match AddFile(c, files[0])
      case None => None
      case Some(c') => AddFiles(c', files[1..])
  }

  /** The run: the mapping that is written out, or `None` when it aborted before
      the write (an exception caught at the top). */
  function ExtractAllProducts(files: seq<ResultFile>): (r: Option<map<string, seq<Product>>>)
    ensures r.None? <==> exists f :: f in files && FileFails(f)
    ensures r.Some? ==> Unique(r.value)
    ensures r.Some? ==> forall k :: k in r.value ==> |r.value[k]| > 0
  {
    AddFilesFail(Catalog(map[], {}), files);
    match AddFiles(Catalog(map[], {}), files)
    case None => None
    case Some(c) => Some(c.products)
  }

  lemma AddFileFail(c: Catalog, f: ResultFile)
    requires Valid(c)
    ensures AddFile(c, f).None? <==> FileFails(f)
  {
  }

  /** The run aborts exactly when some file's content, sale list or item cannot be handled. */
  lemma {:induction false} AddFilesFail(c: Catalog, files: seq<ResultFile>)
    requires Valid(c)
    ensures AddFiles(c, files).None? <==> exists f :: f in files && FileFails(f)
    decreases |files|
  {
    if |files| > 0 {
      AddFileFail(c, files[0]);
      if AddFile(c, files[0]).Some? {
        AddFilesFail(AddFile(c, files[0]).value, files[1..]);
      }
      assert forall g :: g in files <==> g == files[0] || g in files[1..];
    }
  }

  /** An object document without the `data.b2c.onSaleList` path contributes
      nothing and raises nothing. */
  lemma MissingPathAddsNothing(c: Catalog, f: ResultFile)
    requires Valid(c)
    requires f.content.Some? && ObjectPathMissing(f.content.value)
    ensures AddFile(c, f) == Some(c)
  {
  }

  /** A document, `data` or `b2c` that is null, a number or a boolean makes the
      path test raise, and the whole run writes nothing. */
  lemma ScalarLevelAborts(files: seq<ResultFile>, i: nat)
    requires i < |files| && files[i].content.Some?
    requires var doc := files[i].content.value;
             || Scalar(doc)
             || (doc.Obj? && "data" in doc.fields && Scalar(doc.fields["data"]))
             || (doc.Obj? && "data" in doc.fields && doc.fields["data"].Obj? && "b2c" in doc.fields["data"].fields
                 && Scalar(doc.fields["data"].fields["b2c"]))
    ensures ExtractAllProducts(files).None?
  {
    assert FileFails(files[i]);
  }

  // ---------------------------------------------------------------------------
  // An independent description of the result: take the stream of every
  // (keyword, product) the files yield, keep each key's first occurrence, and
  // group what is left by keyword.

  datatype Entry = Entry(keyword: string, product: Product)

  function Tag(keyword: string, ps: seq<Product>): seq<Entry>
  {
    if |ps| == 0 then [] else [Entry(keyword, ps[0])] + Tag(keyword, ps[1..])
  }

  /** All items of a list mapped to products, or `None` if one cannot be. */
  function Products(items: seq<Json>): (r: Option<seq<Product>>)
    ensures r.Some? ==> |r.value| == |items|
    decreases |items|
  {
    if |items| == 0 then Some([])
    else
      match ProductOf(items[0])
      case None => None
      case Some(p) =>
        match Products(items[1..])
        case None => None
        case Some(ps) => Some([p] + ps)
  }

  function FileEntries(f: ResultFile): Option<seq<Entry>>
  {
    match f.content
    case None => None
    case Some(doc) =>
      match SaleItems(doc)
      case None => None
      case Some(items) =>
        match Products(items)
        case None => None
        case Some(ps) => Some(Tag(KeywordOf(f.name), ps))
  }

  /** The whole stream, file by file, each file in list order. */
  function AllEntries(files: seq<ResultFile>): Option<seq<Entry>>
    decreases |files|
  {
    if |files| == 0 then Some([])
    else
      match FileEntries(files[0])
      case None => None
      case Some(es) =>
        match AllEntries(files[1..])
        case None => None
        case Some(rest) => Some(es + rest)
  }

  /** The number of items the sale lists of the files hold. */
  function ItemCount(files: seq<ResultFile>): nat
    decreases |files|
  {
    if |files| == 0 then 0
    else
      var here :=
        if files[0].content.Some? && SaleItems(files[0].content.value).Some?
        then |SaleItems(files[0].content.value).value| else 0;
      here + ItemCount(files[1..])
  }

  function KeysOf(es: seq<Entry>): set<Key>
  {
    if |es| == 0 then {} else KeysOf(es[..|es| - 1]) + {KeyOf(es[|es| - 1].product)}
  }

  /** The entries whose key did not occur earlier in the stream, in stream order. */
  function FirstOccurrences(es: seq<Entry>): seq<Entry>
  {
    if |es| == 0 then []
    else
      var pre := es[..|es| - 1];
      var e := es[|es| - 1];
      FirstOccurrences(pre) + (if KeyOf(e.product) in KeysOf(pre) then [] else [e])
  }

  /** The products of the stream grouped by keyword, each group in stream order. */
  function Group(es: seq<Entry>): map<string, seq<Product>>
  {
    if |es| == 0 then map[]
    else
      var e := es[|es| - 1];
      Append(Group(es[..|es| - 1]), e.keyword, e.product)
  }

  /** The products under keyword `k` in the stream, in stream order. */
  function Select(es: seq<Entry>, k: string): seq<Product>
  {
    if |es| == 0 then []
    else Select(es[..|es| - 1], k) + (if es[|es| - 1].keyword == k then [es[|es| - 1].product] else [])
  }

  /** The catalog a run holds after it has seen the entries `pre`. */
  function After(pre: seq<Entry>): Catalog
  {
    Catalog(Group(FirstOccurrences(pre)), KeysOf(pre))
  }

  lemma {:induction false} KeysOfMember(es: seq<Entry>, i: nat)
    requires i < |es|
    ensures KeyOf(es[i].product) in KeysOf(es)
  {
    if i < |es| - 1 {
      KeysOfMember(es[..|es| - 1], i);
    }
  }

  /** Every product listed under `k` comes from an entry of the stream with keyword `k`. */
  lemma {:induction false} SelectFrom(es: seq<Entry>, k: string, i: nat)
    requires i < |Select(es, k)|
    ensures exists j :: 0 <= j < |es| && es[j] == Entry(k, Select(es, k)[i])
  {
    var pre := es[..|es| - 1];
    if i < |Select(pre, k)| {
      SelectFrom(pre, k, i);
      var j :| 0 <= j < |pre| && pre[j] == Entry(k, Select(pre, k)[i]);
      assert es[j] == pre[j];
    } else {
      assert es[|es| - 1] == Entry(k, Select(es, k)[i]);
    }
  }

  lemma {:induction false} KeysOfFirst(es: seq<Entry>)
    ensures KeysOf(FirstOccurrences(es)) == KeysOf(es)
    ensures forall i :: 0 <= i < |FirstOccurrences(es)| ==> KeyOf(FirstOccurrences(es)[i].product) in KeysOf(es)
  {
    if |es| > 0 {
      var pre := es[..|es| - 1];
      var e := es[|es| - 1];
      KeysOfFirst(pre);
      var f := FirstOccurrences(pre);
      if KeyOf(e.product) in KeysOf(pre) {
        assert FirstOccurrences(es) == f;
      } else {
        assert FirstOccurrences(es) == f + [e];
        assert (f + [e])[..|f|] == f;
      }
      var r := FirstOccurrences(es);
      forall i | 0 <= i < |r|
        ensures KeyOf(r[i].product) in KeysOf(es)
      {
        KeysOfMember(r, i);
      }
    }
  }

  /** Grouping lists exactly the keywords of the stream, each with its products in order. */
  lemma {:induction false} GroupSelect(es: seq<Entry>)
    ensures forall k :: k in Group(es) <==> exists i :: 0 <= i < |es| && es[i].keyword == k
    ensures forall k :: k in Group(es) ==> Group(es)[k] == Select(es, k)
  {
    if |es| > 0 {
      var pre := es[..|es| - 1];
      var e := es[|es| - 1];
      GroupSelect(pre);
      forall k ensures k in Group(es) <==> exists i :: 0 <= i < |es| && es[i].keyword == k
      {
        if k in Group(pre) {
          var i :| 0 <= i < |pre| && pre[i].keyword == k;
          assert es[i].keyword == k;
        }
        if k != e.keyword && (exists i :: 0 <= i < |es| && es[i].keyword == k) {
          var i :| 0 <= i < |es| && es[i].keyword == k;
          assert pre[i].keyword == k;
        }
      }
      forall k | k in Group(es) ensures Group(es)[k] == Select(es, k)
      {
        if k !in Group(pre) && k == e.keyword {
          SelectEmpty(pre, k);
        }
      }
    }
  }

  lemma {:induction false} SelectEmpty(es: seq<Entry>, k: string)
    requires forall i :: 0 <= i < |es| ==> es[i].keyword != k
    ensures Select(es, k) == []
  {
    if |es| > 0 {
      SelectEmpty(es[..|es| - 1], k);
    }
  }

  /** Keys in the first-occurrence stream are pairwise distinct, and it is no
      longer than the stream. */
  lemma {:induction false} FirstOccurrencesDistinct(es: seq<Entry>)
    ensures |FirstOccurrences(es)| <= |es|
    ensures forall i, j :: 0 <= i < j < |FirstOccurrences(es)| ==>
              KeyOf(FirstOccurrences(es)[i].product) != KeyOf(FirstOccurrences(es)[j].product)
  {
    if |es| > 0 {
      var pre := es[..|es| - 1];
      FirstOccurrencesDistinct(pre);
      KeysOfFirst(pre);
    }
  }

  lemma KeysOfSnoc(pre: seq<Entry>, e: Entry)
    ensures KeysOf(pre + [e]) == KeysOf(pre) + {KeyOf(e.product)}
  {
    assert (pre + [e])[..|pre|] == pre;
  }

  lemma FirstOccurrencesSnoc(pre: seq<Entry>, e: Entry)
    ensures FirstOccurrences(pre + [e])
         == FirstOccurrences(pre) + (if KeyOf(e.product) in KeysOf(pre) then [] else [e])
  {
    assert (pre + [e])[..|pre|] == pre;
  }

  lemma GroupSnoc(es: seq<Entry>, e: Entry)
    ensures Group(es + [e]) == Append(Group(es), e.keyword, e.product)
  {
    assert (es + [e])[..|es|] == es;
  }

  /** The state after one more entry, read off the definitions. */
  lemma AfterStep(pre: seq<Entry>, e: Entry)
    ensures KeyOf(e.product) in KeysOf(pre) ==> After(pre + [e]) == After(pre)
    ensures KeyOf(e.product) !in KeysOf(pre) ==>
              After(pre + [e]) == Catalog(Append(After(pre).products, e.keyword, e.product), KeysOf(pre) + {KeyOf(e.product)})
  {
    KeysOfSnoc(pre, e);
    FirstOccurrencesSnoc(pre, e);
    var f := FirstOccurrences(pre);
    if KeyOf(e.product) in KeysOf(pre) {
      assert f + [] == f;
    } else {
      GroupSnoc(f, e);
    }
  }

  /** Recording one more entry moves the run from the state after `pre` to the
      state after `pre + [e]`. */
  lemma RecordAfter(pre: seq<Entry>, e: Entry)
    requires Valid(After(pre))
    ensures Valid(After(pre + [e]))
    ensures Record(After(pre), e.keyword, e.product) == After(pre + [e])
  {
    var c := After(pre);
    assert c.seen == KeysOf(pre);
    AfterStep(pre, e);
    if KeyOf(e.product) in c.seen {
      assert Record(c, e.keyword, e.product) == c;
    } else {
      assert Record(c, e.keyword, e.product) == Catalog(Append(c.products, e.keyword, e.product), c.seen + {KeyOf(e.product)});
    }
  }

  lemma {:induction false} AfterValid(pre: seq<Entry>)
    ensures Valid(After(pre))
  {
    if |pre| > 0 {
      var p := pre[..|pre| - 1];
      AfterValid(p);
      RecordAfter(p, pre[|pre| - 1]);
      assert p + [pre[|pre| - 1]] == pre;
    }
  }

  lemma {:induction false} AddItemsAfter(pre: seq<Entry>, keyword: string, items: seq<Json>, ps: seq<Product>)
    requires Valid(After(pre))
    requires Products(items) == Some(ps)
    ensures AddItems(After(pre), keyword, items) == Some(After(pre + Tag(keyword, ps)))
    decreases |items|
  {
    if |items| == 0 {
      assert pre + [] == pre;
    } else {
      var c := After(pre);
      var p := ps[0];
      var e := Entry(keyword, p);
      assert ProductOf(items[0]) == Some(p);
      assert Products(items[1..]) == Some(ps[1..]);
      assert AddItems(c, keyword, items) == AddItems(Record(c, keyword, p), keyword, items[1..]);
      RecordAfter(pre, e);
      AfterValid(pre + [e]);
      AddItemsAfter(pre + [e], keyword, items[1..], ps[1..]);
      TagCons(keyword, ps);
      Strings.ConcatAssoc(pre, [e], Tag(keyword, ps[1..]));
    }
  }

  lemma TagLength(keyword: string, ps: seq<Product>)
    ensures |Tag(keyword, ps)| == |ps|
  {
  }

  lemma TagCons(keyword: string, ps: seq<Product>)
    requires |ps| > 0
    ensures Tag(keyword, ps) == [Entry(keyword, ps[0])] + Tag(keyword, ps[1..])
  {
  }

  lemma AllEntriesCons(files: seq<ResultFile>, es: seq<Entry>)
    requires |files| > 0 && AllEntries(files) == Some(es)
    ensures FileEntries(files[0]).Some? && AllEntries(files[1..]).Some?
    ensures es == FileEntries(files[0]).value + AllEntries(files[1..]).value
  {
  }

  lemma AddFileAfter(pre: seq<Entry>, f: ResultFile, here: seq<Entry>)
    requires Valid(After(pre))
    requires FileEntries(f) == Some(here)
    ensures AddFile(After(pre), f) == Some(After(pre + here))
  {
    var items := SaleItems(f.content.value).value;
    AddItemsAfter(pre, KeywordOf(f.name), items, Products(items).value);
  }

  lemma AddFilesStep(c: Catalog, files: seq<ResultFile>, c1: Catalog)
    requires Valid(c) && |files| > 0
    requires AddFile(c, files[0]) == Some(c1)
    ensures Valid(c1)
    ensures AddFiles(c, files) == AddFiles(c1, files[1..])
  {
  }

  lemma {:induction false} AddFilesAfter(pre: seq<Entry>, files: seq<ResultFile>, es: seq<Entry>)
    requires Valid(After(pre))
    requires AllEntries(files) == Some(es)
    ensures AddFiles(After(pre), files) == Some(After(pre + es))
    decreases |files|
  {
    if |files| == 0 {
      assert pre + [] == pre;
    } else {
      AllEntriesCons(files, es);
      var here := FileEntries(files[0]).value;
      var rest := AllEntries(files[1..]).value;
      AddFileAfter(pre, files[0], here);
      AddFilesStep(After(pre), files, After(pre + here));
      AddFilesAfter(pre + here, files[1..], rest);
      Strings.ConcatAssoc(pre, here, rest);
    }
  }

  lemma FileEntriesFail(f: ResultFile)
    ensures FileEntries(f).None? <==> FileFails(f)
  {
    if f.content.Some? && SaleItems(f.content.value).Some? {
      ProductsFail(SaleItems(f.content.value).value);
    }
  }

  /** The stream cannot be formed exactly when some file makes the run abort. */
  lemma {:induction false} AllEntriesFail(files: seq<ResultFile>)
    ensures AllEntries(files).None? <==> exists f :: f in files && FileFails(f)
    decreases |files|
  {
    if |files| > 0 {
      AllEntriesFail(files[1..]);
      FileEntriesFail(files[0]);
      assert AllEntries(files).None? <==> FileEntries(files[0]).None? || AllEntries(files[1..]).None?;
      assert forall g :: g in files <==> g == files[0] || g in files[1..];
    }
  }

  lemma {:induction false} ProductsFail(items: seq<Json>)
    ensures Products(items).None? <==> exists item :: item in items && ProductOf(item).None?
    decreases |items|
  {
    if |items| > 0 {
      ProductsFail(items[1..]);
      assert forall x :: x in items <==> x == items[0] || x in items[1..];
    }
  }

  /** The extractor's output is the first occurrence of every (name, price) key in
      the whole stream of files and items, grouped by keyword in stream order; it
      aborts exactly when the stream cannot be formed. */
  lemma ExtractIsFirstOccurrencesGrouped(files: seq<ResultFile>)
    ensures AllEntries(files).None? ==> ExtractAllProducts(files).None?
    ensures AllEntries(files).Some? ==>
              ExtractAllProducts(files) == Some(Group(FirstOccurrences(AllEntries(files).value)))
  {
    AllEntriesFail(files);
    if AllEntries(files).Some? {
      var es := AllEntries(files).value;
      assert After([]) == Catalog(map[], {});
      AfterValid([]);
      AddFilesAfter([], files, es);
      assert [] + es == es;
    }
  }

  /** A keyword appears in the output iff some product was kept under it; every
      keyword's list holds the kept stream entries for that keyword, in stream order. */
  lemma OutputKeywords(files: seq<ResultFile>, es: seq<Entry>)
    requires AllEntries(files) == Some(es)
    ensures ExtractAllProducts(files).Some?
    ensures var out := ExtractAllProducts(files).value;
            var kept := FirstOccurrences(es);
            && (forall k :: k in out <==> exists i :: 0 <= i < |kept| && kept[i].keyword == k)
            && (forall k :: k in out ==> out[k] == Select(kept, k))
  {
    ExtractIsFirstOccurrencesGrouped(files);
    GroupSelect(FirstOccurrences(es));
  }

  // ---------------------------------------------------------------------------
  // Counting.

  /** The number of products listed in a mapping, over all keywords. */
  ghost function TotalCount(m: map<string, seq<Product>>): nat
    decreases |m|
  {
    if |m| == 0 then 0
    else
      var k :| k in m;
      |m[k]| + TotalCount(m - {k})
  }

  lemma {:induction false} TotalCountRemove(m: map<string, seq<Product>>, k: string)
    requires k in m
    ensures TotalCount(m) == |m[k]| + TotalCount(m - {k})
    decreases |m|
  {
    var j :| j in m && TotalCount(m) == |m[j]| + TotalCount(m - {j});
    if j != k {
      var mj, mk := m - {j}, m - {k};
      RemoveBoth(m, j, k);
      RemoveBoth(m, k, j);
      var rest := mj - {k};
      assert rest == mk - {j};
      TotalCountRemove(mj, k);
      assert TotalCount(mj) == |m[k]| + TotalCount(rest);
      TotalCountRemove(mk, j);
      assert TotalCount(mk) == |m[j]| + TotalCount(rest);
    }
  }

  lemma RemoveBoth(m: map<string, seq<Product>>, j: string, k: string)
    requires j in m && k in m && j != k
    ensures k in m - {j} && j in m - {k}
    ensures (m - {j})[k] == m[k] && (m - {k})[j] == m[j]
    ensures (m - {j}) - {k} == (m - {k}) - {j}
    ensures |m - {j}| < |m|
  {
    assert (m - {j}).Keys == m.Keys - {j};
  }

  lemma AppendCount(m: map<string, seq<Product>>, keyword: string, p: Product)
    ensures TotalCount(Append(m, keyword, p)) == TotalCount(m) + 1
  {
    var before := if keyword in m then m[keyword] else [];
    UpdateRemove(m, keyword, before + [p]);
    TotalCountRemove(Append(m, keyword, p), keyword);
    if keyword in m {
      TotalCountRemove(m, keyword);
    }
  }

  lemma UpdateRemove(m: map<string, seq<Product>>, k: string, v: seq<Product>)
    ensures k in m[k := v] && m[k := v][k] == v
    ensures m[k := v] - {k} == m - {k}
    ensures k !in m ==> m - {k} == m
  {
  }

  lemma {:induction false} GroupCount(es: seq<Entry>)
    ensures TotalCount(Group(es)) == |es|
  {
    if |es| > 0 {
      GroupCount(es[..|es| - 1]);
      AppendCount(Group(es[..|es| - 1]), es[|es| - 1].keyword, es[|es| - 1].product);
    }
  }

  lemma {:induction false} EntriesCount(files: seq<ResultFile>, es: seq<Entry>)
    requires AllEntries(files) == Some(es)
    ensures |es| == ItemCount(files)
    decreases |files|
  {
    if |files| > 0 {
      var f := files[0];
      var rest := AllEntries(files[1..]).value;
      assert es == FileEntries(f).value + rest;
      var ps := Products(SaleItems(f.content.value).value).value;
      TagLength(KeywordOf(f.name), ps);
      EntriesCount(files[1..], rest);
    }
  }

  /** The output never lists more products than the sale lists hold items. */
  lemma OutputCountBound(files: seq<ResultFile>)
    requires ExtractAllProducts(files).Some?
    ensures TotalCount(ExtractAllProducts(files).value) <= ItemCount(files)
  {
    ExtractIsFirstOccurrencesGrouped(files);
    var es := AllEntries(files).value;
    GroupCount(FirstOccurrences(es));
    FirstOccurrencesDistinct(es);
    EntriesCount(files, es);
  }
}
