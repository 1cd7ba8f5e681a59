/** The FlowJo file: fixed template lines, each filled in by `substitute_value`, written in a
    fixed order. The templates are written attribute by attribute; each is the same text as
    the script's template string. */
module FlowJo {
  import opened PyStr
  import opened Splice
  import opened Sanitize

  /** The two lines of flowjo_main_header. */
  const XmlDeclaration: string := "<?xml version=\"1.0\" " + "encoding=\"UTF-8\"?>"
  const GatingOpen: string := "<gating:gatingML>"

  /** flowjo_main_header: one string holding a line break. */
  const MainHeader: string := XmlDeclaration + "\n" + GatingOpen

  /** flowjo_main_footer */
  const MainFooter: string := "</gating:gatingML>"

  /** flowjo_matrix_header */
  const MatrixHeader: string :=
    "  <transforms:spilloverMatrix " + "prefix=\"Comp-\"" + " " + "name=\"\"" + " " + "editable=\"1\""
    + " " + "status=\"FINALIZED\"" + " " + "transforms:id=\"\"" + ">"

  /** flowjo_matrix_footer */
  const MatrixFooter: string := "  </transforms:spilloverMatrix>"

  /** flowjo_parameter_header, flowjo_parameter_body, flowjo_parameter_footer */
  const ParameterHeader: string := "    <data-type:parameters>"
  const ParameterBody: string := "      <data-type:parameter " + "data-type:name=\"\"" + "/>"
  const ParameterFooter: string := "    </data-type:parameters>"

  /** flowjo_coefficient_header, flowjo_coefficient_body, flowjo_coefficient_footer */
  const CoefficientHeader: string := "    <transforms:spillover " + "data-type:parameter=\"\"" + ">"
  const CoefficientBody: string :=
    "      <transforms:coefficient " + "data-type:parameter=\"\"" + " " + "transforms:value=\"\"" + "/>"
  const CoefficientFooter: string := "    </transforms:spillover>"

  /** Printing the main header writes exactly two lines: the XML declaration and the opening
      gating element. */
  lemma MainHeaderLines()
    ensures Split(MainHeader, '\n') == [XmlDeclaration, GatingOpen]
  {
    var parts := [XmlDeclaration, GatingOpen];
    assert Join(parts, '\n') == MainHeader;
    SplitJoin(parts, '\n');
  }

  /** The matrix header once the matrix name and then the identifier are spliced in. */
  function MatrixLine(name: string, id: string): string
  {
    SubstituteValue(SubstituteValue(MatrixHeader, "name", name), "transforms:id", id)
  }

  /** A parameter line for a dye: its sanitised name in `data-type:name`. */
  function ParameterLine(d: string): string
  {
    SubstituteValue(ParameterBody, "data-type:name", SanitizeDye(d))
  }

  /** The opening line of the spillover block of a dye: its sanitised name in
      `data-type:parameter`. */
  function SpilloverLine(d: string): string
  {
    SubstituteValue(CoefficientHeader, "data-type:parameter", SanitizeDye(d))
  }

  /** A coefficient line: the sanitised name of the column dye in `data-type:parameter`, then
      the coefficient text in `transforms:value`. */
  function CoefficientLine(d2: string, value: string): string
  {
    SubstituteValue(SubstituteValue(CoefficientBody, "data-type:parameter", SanitizeDye(d2)),
                    "transforms:value", value)
  }

  /** The template lines hold no line break; only the main header does. */
  lemma TemplatesUnbroken()
    ensures '\n' !in XmlDeclaration && '\n' !in GatingOpen && '\n' !in MainFooter
    ensures '\n' !in MatrixHeader && '\n' !in MatrixFooter
    ensures '\n' !in ParameterHeader && '\n' !in ParameterBody && '\n' !in ParameterFooter
    ensures '\n' !in CoefficientHeader && '\n' !in CoefficientBody && '\n' !in CoefficientFooter
  {
    MainHeaderLines();
    MatrixPiecesUnbroken();
    ParameterPiecesUnbroken();
    CoefficientPiecesUnbroken();
  }

  /** The pieces the matrix templates are written in hold no line break. */
  lemma MatrixPiecesUnbroken()
    ensures '\n' !in "  <transforms:spilloverMatrix " && '\n' !in "prefix=\"Comp-\"" && '\n' !in " "
    ensures '\n' !in "name=\"\"" && '\n' !in "editable=\"1\"" && '\n' !in "status=\"FINALIZED\""
    ensures '\n' !in "transforms:id=\"\"" && '\n' !in ">" && '\n' !in MatrixFooter && '\n' !in MainFooter
  {
    UnbrokenPair("  <transforms:spilloverMatrix ", "prefix=\"Comp-\"");
    UnbrokenPair("name=\"\"", "editable=\"1\"");
    UnbrokenPair("status=\"FINALIZED\"", "transforms:id=\"\"");
    UnbrokenPair(" ", ">");
    UnbrokenPair(MatrixFooter, MainFooter);
  }

  /** The pieces the parameter templates are written in hold no line break. */
  lemma ParameterPiecesUnbroken()
    ensures '\n' !in ParameterHeader && '\n' !in ParameterFooter
    ensures '\n' !in "      <data-type:parameter " && '\n' !in "data-type:name=\"\"" && '\n' !in "/>"
  {
    UnbrokenPair(ParameterHeader, ParameterFooter);
    UnbrokenPair("      <data-type:parameter ", "data-type:name=\"\"");
    UnbrokenPair("/>", "");
  }

  /** The pieces the coefficient templates are written in hold no line break. */
  lemma CoefficientPiecesUnbroken()
    ensures '\n' !in "    <transforms:spillover " && '\n' !in "data-type:parameter=\"\"" && '\n' !in ">"
    ensures '\n' !in "      <transforms:coefficient " && '\n' !in " " && '\n' !in "transforms:value=\"\""
    ensures '\n' !in "/>" && '\n' !in CoefficientFooter
  {
    UnbrokenPair("    <transforms:spillover ", "data-type:parameter=\"\"");
    UnbrokenPair("      <transforms:coefficient ", "transforms:value=\"\"");
    UnbrokenPair(">", " ");
    UnbrokenPair("/>", CoefficientFooter);
  }

  /** Two pieces of text without a line break, checked one pair at a time. */
  lemma UnbrokenPair(a: string, b: string)
    requires forall k :: 0 <= k < |a| ==> a[k] != '\n'
    requires forall k :: 0 <= k < |b| ==> b[k] != '\n'
    ensures '\n' !in a && '\n' !in b
  {
  }

  /** The matrix header prints as one line when the name and the identifier hold no line
      break. */
  lemma MatrixLineUnbroken(name: string, id: string)
    requires '\n' !in name && '\n' !in id
    ensures '\n' !in MatrixLine(name, id)
  {
    TemplatesUnbroken();
    SpliceChars(MatrixHeader, "name", name);
    SpliceChars(SubstituteValue(MatrixHeader, "name", name), "transforms:id", id);
  }

  /** A parameter line prints as one line when the dye holds no line break. */
  lemma ParameterLineUnbroken(d: string)
    requires '\n' !in d
    ensures '\n' !in ParameterLine(d)
  {
    TemplatesUnbroken();
    SanitizeKeepsChar(d, '\n');
    SpliceChars(ParameterBody, "data-type:name", SanitizeDye(d));
  }

  /** A block header prints as one line when the dye holds no line break. */
  lemma SpilloverLineUnbroken(d: string)
    requires '\n' !in d
    ensures '\n' !in SpilloverLine(d)
  {
    TemplatesUnbroken();
    SanitizeKeepsChar(d, '\n');
    SpliceChars(CoefficientHeader, "data-type:parameter", SanitizeDye(d));
  }

  /** A coefficient line prints as one line when the column dye and the coefficient text hold
      no line break. */
  lemma CoefficientLineUnbroken(d2: string, value: string)
    requires '\n' !in d2 && '\n' !in value
    ensures '\n' !in CoefficientLine(d2, value)
  {
    TemplatesUnbroken();
    SanitizeKeepsChar(d2, '\n');
    var first := SubstituteValue(CoefficientBody, "data-type:parameter", SanitizeDye(d2));
    SpliceChars(CoefficientBody, "data-type:parameter", SanitizeDye(d2));
    SpliceChars(first, "transforms:value", value);
  }

  lemma Regroup5(a: string, b: string, c: string, d: string, e: string)
    ensures a + b + c + d + e == a + b + (c + d + e)
  {
  }

  lemma Regroup11(p0: string, p1: string, p2: string, p3: string, p4: string, p5: string,
                  p6: string, p7: string, p8: string, p9: string, p10: string)
    ensures p0 + p1 + p2 + p3 + p4 + p5 + p6 + p7 + p8 + p9 + p10
            == p0 + p1 + p2 + p3 + (p4 + p5 + p6 + p7 + p8 + p9 + p10)
    ensures p0 + p1 + p2 + p3 + (p4 + p5 + p6 + p7 + p8 + p9 + p10)
            == p0 + p1 + p2 + p3 + p4 + p5 + p6 + p7 + p8 + p9 + p10
  {
  }

  /** The matrix header attribute by attribute. */
  lemma MatrixHeaderParts()
    ensures MatrixHeader
            == "  <transforms:spilloverMatrix " + Filled("prefix", "Comp-") + " " + Placeholder("name") + " "
               + Filled("editable", "1") + " " + Filled("status", "FINALIZED") + " "
               + Placeholder("transforms:id") + ">"
  {
    MatrixHeaderAttributes();
  }

  /** The attributes of the matrix header as the template spells them. */
  lemma MatrixHeaderAttributes()
    ensures "prefix=\"Comp-\"" == Filled("prefix", "Comp-")
    ensures "name=\"\"" == Placeholder("name")
    ensures "editable=\"1\"" == Filled("editable", "1")
    ensures "status=\"FINALIZED\"" == Filled("status", "FINALIZED")
    ensures "transforms:id=\"\"" == Placeholder("transforms:id")
  {
  }

  /** The name splice into the matrix header always lands in the empty `name` attribute. */
  lemma MatrixNameSplice(name: string)
    ensures SubstituteValue(MatrixHeader, "name", name)
            == "  <transforms:spilloverMatrix " + Filled("prefix", "Comp-") + " " + Filled("name", name)
               + (" " + Filled("editable", "1") + " " + Filled("status", "FINALIZED") + " "
                  + Placeholder("transforms:id") + ">")
  {
    var p0 := "  <transforms:spilloverMatrix ";
    var q1 := Filled("prefix", "Comp-");
    var tail := " " + Filled("editable", "1") + " " + Filled("status", "FINALIZED") + " "
                + Placeholder("transforms:id") + ">";
    MatrixHeaderParts();
    Regroup11(p0, q1, " ", Placeholder("name"), " ", Filled("editable", "1"), " ",
              Filled("status", "FINALIZED"), " ", Placeholder("transforms:id"), ">");
    AbsentFilledText(p0, "prefix", "Comp-", "name");
    AbsentTextAfter(p0 + q1, " ", "name");
    SpliceIntoPlaceholder(p0 + q1 + " ", "name", tail, name);
  }

  /** Text of the matrix header after the name splice, up to the identifier placeholder. */
  function MatrixBeforeId(name: string): string
  {
    "  <transforms:spilloverMatrix " + Filled("prefix", "Comp-") + " " + Filled("name", name) + " "
    + Filled("editable", "1") + " " + Filled("status", "FINALIZED") + " "
  }

  /** No `transforms:id="` in the matrix header up to the end of the name attribute. */
  lemma MatrixIdAbsentName(name: string)
    requires Inert(name)
    ensures Absent("  <transforms:spilloverMatrix " + Filled("prefix", "Comp-") + " " + Filled("name", name),
                   Marker("transforms:id"))
  {
    var p0 := "  <transforms:spilloverMatrix ";
    AbsentFilledText(p0, "prefix", "Comp-", "transforms:id");
    AbsentFilledAfter(p0 + Filled("prefix", "Comp-"), " ", "name", name, "transforms:id");
  }

  /** An inert name leaves no `transforms:id="` ahead of the identifier placeholder. */
  lemma MatrixIdAbsent(name: string)
    requires Inert(name)
    ensures Absent(MatrixBeforeId(name), Marker("transforms:id"))
  {
    var a := "transforms:id";
    var a2 := "  <transforms:spilloverMatrix " + Filled("prefix", "Comp-") + " " + Filled("name", name);
    var a3 := a2 + " " + Filled("editable", "1");
    MatrixIdAbsentName(name);
    AbsentFilledAfter(a2, " ", "editable", "1", a);
    AbsentFilledAfter(a3, " ", "status", "FINALIZED", a);
    AbsentTextAfter(a3 + " " + Filled("status", "FINALIZED"), " ", a);
  }

  /** The matrix header line: the matrix name lands in `name` and the identifier in
      `transforms:id`; every other attribute keeps its template value. */
  lemma MatrixLineText(name: string, id: string)
    requires Inert(name)
    ensures MatrixLine(name, id)
            == "  <transforms:spilloverMatrix " + Filled("prefix", "Comp-") + " " + Filled("name", name) + " "
               + Filled("editable", "1") + " " + Filled("status", "FINALIZED") + " "
               + Filled("transforms:id", id) + ">"
  {
    MatrixNameSplice(name);
    Regroup11("  <transforms:spilloverMatrix ", Filled("prefix", "Comp-"), " ", Filled("name", name), " ",
              Filled("editable", "1"), " ", Filled("status", "FINALIZED"), " ",
              Placeholder("transforms:id"), ">");
    MatrixIdAbsent(name);
    SpliceIntoPlaceholder(MatrixBeforeId(name), "transforms:id", ">", id);
  }

  /** A parameter line carries the sanitised dye name in `data-type:name`, whatever the name. */
  lemma ParameterLineText(d: string)
    ensures ParameterLine(d) == "      <data-type:parameter " + Filled("data-type:name", SanitizeDye(d)) + "/>"
  {
    assert "data-type:name=\"\"" == Placeholder("data-type:name");
    AbsentQuoteFree("      <data-type:parameter ", "data-type:name");
    SpliceIntoPlaceholder("      <data-type:parameter ", "data-type:name", "/>", SanitizeDye(d));
  }

  /** The opening line of a spillover block carries the sanitised dye name in
      `data-type:parameter`, whatever the name. */
  lemma SpilloverLineText(d: string)
    ensures SpilloverLine(d) == "    <transforms:spillover " + Filled("data-type:parameter", SanitizeDye(d)) + ">"
  {
    assert "data-type:parameter=\"\"" == Placeholder("data-type:parameter");
    AbsentQuoteFree("    <transforms:spillover ", "data-type:parameter");
    SpliceIntoPlaceholder("    <transforms:spillover ", "data-type:parameter", ">", SanitizeDye(d));
  }

  /** The coefficient template attribute by attribute. */
  lemma CoefficientBodyParts()
    ensures CoefficientBody
            == "      <transforms:coefficient " + Placeholder("data-type:parameter") + " "
               + Placeholder("transforms:value") + "/>"
  {
    assert "data-type:parameter=\"\"" == Placeholder("data-type:parameter");
    assert "transforms:value=\"\"" == Placeholder("transforms:value");
  }

  /** The first splice of a coefficient line fills `data-type:parameter`, whatever the value. */
  lemma CoefficientParameterSplice(v1: string)
    ensures SubstituteValue(CoefficientBody, "data-type:parameter", v1)
            == "      <transforms:coefficient " + Filled("data-type:parameter", v1) + " "
               + Placeholder("transforms:value") + "/>"
  {
    var p0 := "      <transforms:coefficient ";
    CoefficientBodyParts();
    Regroup5(p0, Placeholder("data-type:parameter"), " ", Placeholder("transforms:value"), "/>");
    AbsentQuoteFree(p0, "data-type:parameter");
    SpliceIntoPlaceholder(p0, "data-type:parameter", " " + Placeholder("transforms:value") + "/>", v1);
    Regroup5(p0, Filled("data-type:parameter", v1), " ", Placeholder("transforms:value"), "/>");
  }

  /** The second splice of a coefficient line fills `transforms:value`, once the first has put
      an inert value in `data-type:parameter`. */
  lemma CoefficientValueSplice(v1: string, value: string)
    requires Inert(v1)
    ensures SubstituteValue("      <transforms:coefficient " + Filled("data-type:parameter", v1) + " "
                            + Placeholder("transforms:value") + "/>", "transforms:value", value)
            == "      <transforms:coefficient " + Filled("data-type:parameter", v1) + " "
               + Filled("transforms:value", value) + "/>"
  {
    CoefficientValueAbsent(v1);
    SpliceIntoPlaceholder("      <transforms:coefficient " + Filled("data-type:parameter", v1) + " ",
                          "transforms:value", "/>", value);
  }

  /** An inert column dye leaves no `transforms:value="` ahead of the value placeholder. */
  lemma CoefficientValueAbsent(v1: string)
    requires Inert(v1)
    ensures Absent("      <transforms:coefficient " + Filled("data-type:parameter", v1) + " ",
                   Marker("transforms:value"))
  {
    var head := "      <transforms:coefficient " + Filled("data-type:parameter", v1);
    AbsentFilledText("      <transforms:coefficient ", "data-type:parameter", v1, "transforms:value");
    AbsentTextAfter(head, " ", "transforms:value");
  }

  /** A coefficient line carries the sanitised column dye in `data-type:parameter` and the
      coefficient text, verbatim, in `transforms:value`, provided the column dye is inert. */
  lemma CoefficientLineText(d2: string, value: string)
    requires Inert(d2)
    ensures CoefficientLine(d2, value)
            == "      <transforms:coefficient " + Filled("data-type:parameter", SanitizeDye(d2)) + " "
               + Filled("transforms:value", value) + "/>"
  {
    CoefficientParameterSplice(SanitizeDye(d2));
    SanitizeKeepsInert(d2);
    CoefficientValueSplice(SanitizeDye(d2), value);
  }
}
