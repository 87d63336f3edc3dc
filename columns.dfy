/**
 * The column normaliser: `STANDARD_COLUMNS` and `_standardize_col_name`,
 * which maps the header spellings found in bank and spreadsheet exports to
 * the four canonical field names.
 */
module Columns {
  import opened Text

  /** The canonical header, in the order every saved file uses. */
  const StandardColumns: seq<string> := ["date", "amount", "category", "description"]

  /** The fixed synonym table, keyed by stripped, lower-cased header text. */
  const Synonyms: map<string, string> := map[
    "date" := "date",
    "transaction date" := "date",
    "txn date" := "date",
    "amount" := "amount",
    "amt" := "amount",
    "value" := "amount",
    "debit" := "amount",
    "category" := "category",
    "type" := "category",
    "description" := "description",
    "desc" := "description",
    "merchant" := "description",
    "narration" := "description",
    "details" := "description",
    "notes" := "description"
  ]

  /** Every synonym names one of the four canonical fields, and every
      canonical name is its own synonym. */
  lemma SynonymTable()
    ensures forall k :: k in Synonyms ==> Synonyms[k] in StandardColumns
    ensures forall c :: c in StandardColumns ==> c in Synonyms && Synonyms[c] == c
  {
  }

  /** The canonical names carry no whitespace and no upper-case letter. */
  lemma StandardColumnsFolded()
    ensures forall c :: c in StandardColumns ==> IsStripped(c) && NoUpper(c)
  {
    assert IsStripped("date") && NoUpper("date");
    assert IsStripped("amount") && NoUpper("amount");
    assert IsStripped("category") && NoUpper("category");
    assert IsStripped("description") && NoUpper("description");
  }

  /** The header text with surrounding whitespace removed and letters lower-cased. */
  function Fold(col: string): (c: string)
    ensures IsStripped(c) && NoUpper(c)
  {
    var c := Lower(Strip(col));
    LowerStripCommute(col);
    c
  }

  /** `_standardize_col_name`: a synonym becomes its canonical name, any
      other header comes back stripped and lower-cased. */
  function StandardizeColName(col: string): (r: string)
    ensures r in StandardColumns <==> Fold(col) in Synonyms
    ensures Fold(col) in Synonyms ==> r == Synonyms[Fold(col)]
    ensures r !in StandardColumns ==> r == Fold(col)
    ensures IsStripped(r) && NoUpper(r)
  {
    var c := Fold(col);
    SynonymTable();
    StandardColumnsFolded();
    if c in Synonyms then Synonyms[c] else c
  }

  lemma FoldOfFolded(c: string)
    requires IsStripped(c) && NoUpper(c)
    ensures Fold(c) == c
  {
    StripOfStripped(c);
    LowerOfNoUpper(c);
  }

  /** Normalising a normalised name changes nothing. */
  lemma {:induction false} StandardizeIdempotent(col: string)
    ensures StandardizeColName(StandardizeColName(col)) == StandardizeColName(col)
  {
    var r := StandardizeColName(col);
    FoldOfFolded(r);
    SynonymTable();
  }

  /** Headers that differ only in letter case normalise alike. */
  lemma {:induction false} StandardizeIgnoresCase(a: string, b: string)
    requires Lower(a) == Lower(b)
    ensures StandardizeColName(a) == StandardizeColName(b)
  {
    LowerStripCommute(a);
    LowerStripCommute(b);
    assert Fold(a) == Fold(b);
  }

  /** Whitespace around a header is ignored. */
  lemma {:induction false} StandardizeIgnoresPadding(pre: string, col: string, post: string)
    requires AllSpace(pre) && AllSpace(post)
    ensures StandardizeColName(pre + col + post) == StandardizeColName(col)
  {
    StripIgnoresPadding(pre, col, post);
  }

  /** A header that is no synonym passes through, only stripped and lower-cased. */
  lemma UnknownHeaderPassesThrough(col: string)
    requires Lower(Strip(col)) !in Synonyms
    ensures StandardizeColName(col) == Lower(Strip(col))
  {
  }

  /** A header that lower-cases to a canonical name normalises to it. */
  lemma StandardizeOfCanonicalLower(col: string, c: string)
    requires c in StandardColumns && Lower(col) == c
    ensures StandardizeColName(col) == c
  {
    StandardColumnsFolded();
    LowerOfNoUpper(c);
    StandardizeIgnoresCase(col, c);
    FoldOfFolded(c);
    SynonymTable();
  }

  lemma CapitalisedDate()
    ensures StandardizeColName("Date") == "date"
  {
    assert Lower("Date") == "date";
    StandardizeOfCanonicalLower("Date", "date");
  }

  lemma CapitalisedAmount()
    ensures StandardizeColName("Amount") == "amount"
  {
    assert Lower("Amount") == "amount";
    StandardizeOfCanonicalLower("Amount", "amount");
  }

  lemma CapitalisedCategory()
    ensures StandardizeColName("Category") == "category"
  {
    assert Lower("Category") == "category";
    StandardizeOfCanonicalLower("Category", "category");
  }

  lemma CapitalisedDescription()
    ensures StandardizeColName("Description") == "description"
  {
    assert Lower("Description") == "description";
    StandardizeOfCanonicalLower("Description", "description");
  }

  lemma SynonymsFolded1()
    ensures IsStripped("date") && NoUpper("date")
      && IsStripped("transaction date") && NoUpper("transaction date")
      && IsStripped("txn date") && NoUpper("txn date")
      && IsStripped("amount") && NoUpper("amount")
      && IsStripped("amt") && NoUpper("amt")
  {
  }

  lemma SynonymsFolded2()
    ensures IsStripped("value") && NoUpper("value")
      && IsStripped("debit") && NoUpper("debit")
      && IsStripped("category") && NoUpper("category")
      && IsStripped("type") && NoUpper("type")
      && IsStripped("description") && NoUpper("description")
  {
  }

  lemma SynonymsFolded3()
    ensures IsStripped("desc") && NoUpper("desc")
      && IsStripped("merchant") && NoUpper("merchant")
      && IsStripped("narration") && NoUpper("narration")
      && IsStripped("details") && NoUpper("details")
      && IsStripped("notes") && NoUpper("notes")
  {
  }

  /** Every synonym is already stripped and lower-cased. */
  lemma SynonymsFolded()
    ensures forall k :: k in Synonyms ==> IsStripped(k) && NoUpper(k)
  {
    SynonymsFolded1();
    SynonymsFolded2();
    SynonymsFolded3();
  }

  /** A header that lower-cases to a synonym normalises to that synonym's
      canonical name. */
  lemma SynonymLookup(col: string, k: string)
    requires k in Synonyms && Lower(col) == k
    ensures StandardizeColName(col) == Synonyms[k]
  {
    SynonymsFolded();
    LowerOfNoUpper(k);
    StandardizeIgnoresCase(col, k);
    FoldOfFolded(k);
  }

  lemma TxnDateLower()
    ensures Lower("Txn Date") == "txn date"
  {
  }

  lemma TxnDateSynonym()
    ensures "txn date" in Synonyms && Synonyms["txn date"] == "date"
  {
  }

  lemma TxnDateColumn()
    ensures StandardizeColName("Txn Date") == "date"
  {
    TxnDateLower();
    TxnDateSynonym();
    SynonymLookup("Txn Date", "txn date");
  }

  lemma DebitColumn()
    ensures StandardizeColName("Debit") == "amount"
  {
    assert Lower("Debit") == "debit";
    SynonymLookup("Debit", "debit");
  }

  lemma TypeColumn()
    ensures StandardizeColName("Type") == "category"
  {
    assert Lower("Type") == "type";
    SynonymLookup("Type", "type");
  }

  lemma MerchantColumn()
    ensures StandardizeColName("Merchant") == "description"
  {
    assert Lower("Merchant") == "merchant";
    SynonymLookup("Merchant", "merchant");
  }

  /** The canonical names map to themselves. */
  lemma StandardColumnsFixed()
    ensures forall i :: 0 <= i < |StandardColumns| ==> StandardizeColName(StandardColumns[i]) == StandardColumns[i]
  {
    forall i | 0 <= i < |StandardColumns|
      ensures StandardizeColName(StandardColumns[i]) == StandardColumns[i]
    {
      var c := StandardColumns[i];
      StandardColumnsFolded();
      FoldOfFolded(c);
      SynonymTable();
    }
  }
}
