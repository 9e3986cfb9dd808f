/**
 * Worked instances of the catalog adapter's behaviour, each derived from the
 * general definitions.
 */
module CatalogExamples {
  import opened Wrappers
  import opened PhpString
  import opened PhpCatalog

  /** A template category gives a flat file whatever the locale; "" scope is "default". */
  lemma FlatTemplateFile()
    ensures File("/catalogs", "validationTemplate", "en", "") == "/catalogs/validation_default.php"
  {
    var category := "validationTemplate";
    FirstTemplateInValidation();
    FileFlat("/catalogs", category, "en", "", 10);
    var f := File("/catalogs", category, "en", "");
    assert f == "/catalogs" + "/" + category[..10] + "_" + EffectiveScope("") + ".php";
    assert category[..10] == "validation";
    assert EffectiveScope("") == "default";
    FlatName();
  }

  /** The flat filename spelled out. */
  lemma FlatName()
    ensures "/catalogs" + "/" + "validation" + "_" + "default" + ".php" == "/catalogs/validation_default.php"
  {
    var built := "/catalogs" + "/" + "validation" + "_" + "default" + ".php";
    var expected := "/catalogs/validation_default.php";
    forall i | 0 <= i < |built| ensures built[i] == expected[i] { }
  }

  /** "Template" first occurs in "validationTemplate" at index 10. */
  lemma FirstTemplateInValidation()
    ensures OccursAt("validationTemplate", TemplateMarker, 10)
    ensures forall j :: 0 <= j < 10 ==> !OccursAt("validationTemplate", TemplateMarker, j)
  {
    var category := "validationTemplate";
    assert category[10..18] == TemplateMarker;
    forall j | 0 <= j < 10 ensures !OccursAt(category, TemplateMarker, j) {
      assert category[j] != 'T';
      assert j + 8 <= |category| ==> category[j..j + 8][0] == category[j];
    }
  }

  /** Any other category gives a file nested by locale and category. */
  lemma NestedFile()
    ensures File("/catalogs", "message", "en", "default") == "/catalogs/en/message/default.php"
  {
    FileNested("/catalogs", "message", "en", "default");
  }

  /** Only the first two pieces of an exploded key are used: "c" is dropped. */
  lemma ExtraPiecesDropped()
    ensures Records([("a|b|c", 1)], None) == [Record("a", 1, Some("b"))]
  {
    var key := "a|b|c";
    assert Implode(["a", "b", "c"], '|') == key;
    ExplodeUnique(["a", "b", "c"], key, '|');
    StrPosChar(key, '|');
    assert key[1] == '|';
  }

  /** A plain key before any split key is passed on without a context. */
  lemma PlainThenSplit()
    ensures Records([("greeting", "hi"), ("greeting|formal", "hello")], None)
         == [Record("greeting", "hi", None), Record("greeting", "hello", Some("formal"))]
  {
    var entries := [("greeting", "hi"), ("greeting|formal", "hello")];
    CompactPlain("greeting", "hi", None);
    SplitFormal();
    assert entries[1..] == [("greeting|formal", "hello")];
  }

  /** A plain key after a split key is passed on with that key's context. */
  lemma ContextCarriedForward()
    ensures Records([("a|x", 1), ("b", 2)], None) == [Record("a", 1, Some("x")), Record("b", 2, Some("x"))]
  {
    var key := "a|x";
    assert Implode(["a", "x"], '|') == key;
    ExplodeUnique(["a", "x"], key, '|');
    StrPosChar(key, '|');
    assert key[1] == '|';
    CompactPlain("b", 2, Some("x"));
    assert [("a|x", 1), ("b", 2)][1..] == [("b", 2)];
  }

  /** "greeting|formal" splits into id "greeting" and context "formal". */
  lemma SplitFormal()
    ensures Compact("greeting|formal", "hello", None) == Record("greeting", "hello", Some("formal"))
  {
    var key := "greeting|formal";
    assert Implode(["greeting", "formal"], '|') == key;
    ExplodeUnique(["greeting", "formal"], key, '|');
    StrPosChar(key, '|');
    assert key[8] == '|';
  }
}
