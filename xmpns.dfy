/** The category of an XMP property, from the namespace it is declared in:
    seven namespaces have a short name, any other stands for itself. */
module XmpNs {
  const RDF_NS := "http://www.w3.org/1999/02/22-rdf-syntax-ns#"
  const TIFF_NS := "http://ns.adobe.com/tiff/1.0/"
  const XAP_NS := "http://ns.adobe.com/xap/1.0/"
  const EXIF_NS := "http://ns.adobe.com/exif/1.0/"
  const XAP_MM_NS := "http://ns.adobe.com/xap/1.0/mm/"
  const DC_NS := "http://purl.org/dc/elements/1.1/"
  const PHOTOSHOP_NS := "http://ns.adobe.com/photoshop/1.0/"

  /** The namespaces with a short name, as a table */
  const SHORT_NAMES: map<string, string> :=
    map[RDF_NS := "XMP-RDF", TIFF_NS := "XMP-tiff", XAP_NS := "XMP-xap", EXIF_NS := "XMP-exif",
        XAP_MM_NS := "XMP-xap", DC_NS := "XMP-dcore", PHOTOSHOP_NS := "Photoshop"]

  /** `xmpns_tagtype`: tests the namespace against each known one in turn */
  function XmpNsTagType(xmpNamespace: string): string
  {
    if xmpNamespace == RDF_NS then "XMP-RDF"
    else if xmpNamespace == TIFF_NS then "XMP-tiff"
    else if xmpNamespace == XAP_NS then "XMP-xap"
    else if xmpNamespace == EXIF_NS then "XMP-exif"
    else if xmpNamespace == XAP_MM_NS then "XMP-xap"
    else if xmpNamespace == DC_NS then "XMP-dcore"
    else if xmpNamespace == PHOTOSHOP_NS then "Photoshop"
    else xmpNamespace
  }

  /** The chain of tests is the table lookup with the namespace itself as
      the default */
  lemma XmpNsTable(ns: string)
    ensures XmpNsTagType(ns) == if ns in SHORT_NAMES then SHORT_NAMES[ns] else ns
  {
  }

  /** A namespace is renamed exactly when it is one of the seven; no
      category is itself a namespace of the table */
  lemma XmpNsRenames(ns: string)
    ensures XmpNsTagType(ns) != ns <==> ns in SHORT_NAMES
    ensures XmpNsTagType(ns) !in SHORT_NAMES
    ensures XmpNsTagType(XmpNsTagType(ns)) == XmpNsTagType(ns)
  {
    XmpNsTable(ns);
    ShortNamesApart();
  }

  lemma ShortNamesApart()
    ensures forall ns :: ns in SHORT_NAMES ==> SHORT_NAMES[ns] !in SHORT_NAMES && SHORT_NAMES[ns] != ns
  {
    assert "XMP-RDF" !in SHORT_NAMES && "XMP-tiff" !in SHORT_NAMES && "XMP-xap" !in SHORT_NAMES;
    assert "XMP-exif" !in SHORT_NAMES && "XMP-dcore" !in SHORT_NAMES && "Photoshop" !in SHORT_NAMES;
  }

  /** The namespace a short name stands for; "XMP-xap" is read back as the
      xap namespace, not as its media-management sub-namespace */
  function NamespaceOf(tagType: string): string
  {
    if tagType == "XMP-RDF" then RDF_NS
    else if tagType == "XMP-tiff" then TIFF_NS
    else if tagType == "XMP-xap" then XAP_NS
    else if tagType == "XMP-exif" then EXIF_NS
    else if tagType == "XMP-dcore" then DC_NS
    else if tagType == "Photoshop" then PHOTOSHOP_NS
    else tagType
  }

  /** The short names identify their namespace, except that the xap
      namespace and its media-management sub-namespace share "XMP-xap" */
  lemma XmpNsSharedName(ns: string)
    requires ns in SHORT_NAMES
    ensures ns != XAP_MM_NS ==> NamespaceOf(XmpNsTagType(ns)) == ns
    ensures XmpNsTagType(ns) == "XMP-xap" <==> ns == XAP_NS || ns == XAP_MM_NS
  {
    XmpNsTable(ns);
  }

  /** The key under which an XMP property is stored: the category, '|', and
      the property's local name */
  function XmpKey(xmpNamespace: string, tagName: string): string
  {
    XmpNsTagType(xmpNamespace) + "|" + tagName
  }

  /** Keys tell properties apart: when neither category contains '|', equal
      keys come from the same category and the same local name */
  lemma XmpKeyInjective(a: string, t: string, a': string, t': string)
    requires '|' !in XmpNsTagType(a) && '|' !in XmpNsTagType(a')
    ensures XmpKey(a, t) == XmpKey(a', t') ==> XmpNsTagType(a) == XmpNsTagType(a') && t == t'
  {
    var c, c' := XmpNsTagType(a), XmpNsTagType(a');
    var k, k' := XmpKey(a, t), XmpKey(a', t');
    if k == k' {
      assert k[|c|] == '|' && k'[|c'|] == '|';
      assert |c| == |c'| by {
        assert forall i :: 0 <= i < |c| ==> k[i] == c[i];
        assert forall i :: 0 <= i < |c'| ==> k'[i] == c'[i];
      }
      assert c == k[..|c|] == k'[..|c'|] == c';
      assert t == k[|c| + 1..] == k'[|c'| + 1..] == t';
    }
  }

  /** The seven categories contain no '|', so the keys of the table's
      namespaces never collide; a namespace with '|' in it can collide */
  lemma XmpKeySeparator(ns: string)
    ensures ns in SHORT_NAMES ==> '|' !in XmpNsTagType(ns)
    ensures XmpKey("a|b", "c") == XmpKey("a", "b|c")
  {
    XmpNsTable(ns);
    assert XmpNsTagType("a|b") == "a|b" && XmpNsTagType("a") == "a";
  }
}
