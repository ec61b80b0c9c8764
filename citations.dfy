/** The citation formatter behind `POST /api/mla-format`: two fixed templates with
    defaults for missing fields, and a constant reply for any other citation type. */
module Citations {
  import opened Results
  import opened Strings

  /** The request body: a JSON object of string fields. */
  type CitationData = map<string, string>

  /** `citation_data.get(key, "")` */
  function Field(data: CitationData, key: string): string {
    if key in data then data[key] else ""
  }

  /** `citation_data.get("type", "website")` */
  function CitationType(data: CitationData): string {
    if "type" in data then data["type"] else "website"
  }

  /** The citation a request describes. */
  datatype Citation =
    | Website(author: string, title: string, website: string, date: string, url: string)
    | Book(author: string, title: string, publisher: string, year: string)
    | NotSupported

  const NotSupportedText: string := "Citation format not supported yet."

  /** Reads the fields of the template the request's type selects. */
  function FromRequest(data: CitationData): (c: Citation)
    ensures c.Website? <==> CitationType(data) == "website"
    ensures c.Book? <==> CitationType(data) == "book"
    ensures c.Website? || c.Book? ==> c.author == Field(data, "author") && c.title == Field(data, "title")
    ensures c.Website? ==> c.website == Field(data, "website") && c.date == Field(data, "date") && c.url == Field(data, "url")
    ensures c.Book? ==> c.publisher == Field(data, "publisher") && c.year == Field(data, "year")
  {
    var kind := CitationType(data);
    if kind == "website" then
      Website(Field(data, "author"), Field(data, "title"), Field(data, "website"), Field(data, "date"), Field(data, "url"))
    else if kind == "book" then
      Book(Field(data, "author"), Field(data, "title"), Field(data, "publisher"), Field(data, "year"))
    else
      NotSupported
  }

  /** A field, the separator that ends it, the literal text after the separator, and the rest. */
  function Joined(field: string, sep: char, lit: string, rest: string): string {
    field + [sep] + lit + rest
  }

  /** The two templates, and the constant text for unsupported types; `TemplateText`
      shows each template as one flat text. */
  function Render(c: Citation): string {
    match c
    case Website(author, title, website, date, url) =>
      Joined(author, '.', " \"", Joined(title, '"', " ", Joined(website, ',', " ", Joined(date, ',', " ", url + "."))))
    case Book(author, title, publisher, year) =>
      Joined(author, '.', " ", Joined(title, '.', " ", Joined(publisher, ',', " ", year + ".")))
    case NotSupported =>
      NotSupportedText
  }

  /** The rendered text of each template, written out flat. */
  lemma TemplateText(c: Citation)
    ensures c.Website? ==> Render(c) == c.author + ". \"" + c.title + "\" " + c.website + ", " + c.date + ", " + c.url + "."
    ensures c.Book? ==> Render(c) == c.author + ". " + c.title + ". " + c.publisher + ", " + c.year + "."
    ensures c.NotSupported? ==> Render(c) == "Citation format not supported yet."
  {
    match c
    case Website(author, title, website, date, url) =>
      WebsiteText(author, title, website, date, url);
    case Book(author, title, publisher, year) =>
      BookText(author, title, publisher, year);
    case NotSupported =>
  }

  lemma WebsiteText(author: string, title: string, website: string, date: string, url: string)
    ensures Render(Website(author, title, website, date, url))
         == author + ". \"" + title + "\" " + website + ", " + date + ", " + url + "."
  {
    var w0 := url + ".";
    var w1 := Joined(date, ',', " ", w0);
    var w2 := Joined(website, ',', " ", w1);
    var w3 := Joined(title, '"', " ", w2);
    JoinedPiece(author, '.', " \"", ". \"", w3);
    JoinedPiece(title, '"', " ", "\" ", w2);
    JoinedPiece(website, ',', " ", ", ", w1);
    JoinedPiece(date, ',', " ", ", ", w0);
    var p1 := author + ". \"";
    Shift(p1, title, "\" ", w2);
    var p2 := p1 + title + "\" ";
    Shift(p2, website, ", ", w1);
    var p3 := p2 + website + ", ";
    Shift(p3, date, ", ", w0);
    var p4 := p3 + date + ", ";
    Shift(p4, url, ".", []);
    assert w0 + [] == w0;
  }

  lemma BookText(author: string, title: string, publisher: string, year: string)
    ensures Render(Book(author, title, publisher, year))
         == author + ". " + title + ". " + publisher + ", " + year + "."
  {
    var w0 := year + ".";
    var w1 := Joined(publisher, ',', " ", w0);
    var w2 := Joined(title, '.', " ", w1);
    JoinedPiece(author, '.', " ", ". ", w2);
    JoinedPiece(title, '.', " ", ". ", w1);
    JoinedPiece(publisher, ',', " ", ", ", w0);
    var p1 := author + ". ";
    Shift(p1, title, ". ", w1);
    var p2 := p1 + title + ". ";
    Shift(p2, publisher, ", ", w0);
    var p3 := p2 + publisher + ", ";
    Shift(p3, year, ".", []);
    assert w0 + [] == w0;
  }

  /** A joined piece is its field, then the separator with the literal, then the rest. */
  lemma JoinedPiece(field: string, sep: char, lit: string, sepLit: string, rest: string)
    requires sepLit == [sep] + lit
    ensures Joined(field, sep, lit, rest) == field + sepLit + rest
  {
  }

  lemma Shift(prefix: string, field: string, lit: string, rest: string)
    ensures prefix + (field + lit + rest) == prefix + field + lit + rest
  {
  }

  /** The handler: the rendered citation of the request. */
  function GenerateCitation(data: CitationData): (r: string)
    ensures CitationType(data) == "website" ==>
      r == Field(data, "author") + ". \"" + Field(data, "title") + "\" " + Field(data, "website") + ", "
           + Field(data, "date") + ", " + Field(data, "url") + "."
    ensures CitationType(data) == "book" ==>
      r == Field(data, "author") + ". " + Field(data, "title") + ". " + Field(data, "publisher") + ", "
           + Field(data, "year") + "."
    ensures CitationType(data) != "website" && CitationType(data) != "book" ==> r == NotSupportedText
    ensures CitationType(data) == "website" || CitationType(data) == "book" ==> r != [] && r[|r| - 1] == '.'
  {
    TemplateText(FromRequest(data));
    Render(FromRequest(data))
  }

  // Reading a rendered citation back.

  /** Reads a field that ends at the first `c`, then the literal text `lit` after it. */
  function Step(s: string, c: char, lit: string): (r: Option<(string, string)>)
    ensures r.Some? ==> c !in r.value.0 && s == Joined(r.value.0, c, lit, r.value.1)
  {
    match SplitFirst(s, c)
    case None => None
    case Some(p) =>
      if lit <= p.1 then
        assert p.1 == lit + p.1[|lit|..];
        Some((p.0, p.1[|lit|..]))
      else None
  }

  lemma StepAt(a: string, c: char, lit: string, b: string)
    requires c !in a
    ensures Step(Joined(a, c, lit, b), c, lit) == Some((a, b))
  {
    assert a + [c] + lit + b == a + [c] + (lit + b);
    SplitFirstAt(a, c, lit + b);
    assert (lit + b)[|lit|..] == b;
  }

  /** The text before a closing full stop. */
  function BeforeFinalStop(s: string): (r: Option<string>)
    ensures r.Some? ==> s == r.value + "."
  {
    if s != [] && s[|s| - 1] == '.' then Some(s[..|s| - 1]) else None
  }

  /** Reads the website template back into its five fields. */
  function ParseWebsite(s: string): Option<Citation> {
    match Step(s, '.', " \"")
    case None => None
    case Some(p1) =>
      match Step(p1.1, '"', " ")
      case None => None
      case Some(p2) =>
        match Step(p2.1, ',', " ")
        case None => None
        case Some(p3) =>
          match Step(p3.1, ',', " ")
          case None => None
          case Some(p4) =>
            match BeforeFinalStop(p4.1)
            case None => None
            case Some(url) => Some(Website(p1.0, p2.0, p3.0, p4.0, url))
  }

  /** Reads the book template back into its four fields. */
  function ParseBook(s: string): Option<Citation> {
    match Step(s, '.', " ")
    case None => None
    case Some(p1) =>
      match Step(p1.1, '.', " ")
      case None => None
      case Some(p2) =>
        match Step(p2.1, ',', " ")
        case None => None
        case Some(p3) =>
          match BeforeFinalStop(p3.1)
          case None => None
          case Some(year) => Some(Book(p1.0, p2.0, p3.0, year))
  }

  /** Fields that do not contain the separator that ends them in the website template. */
  predicate WebsiteSeparable(c: Citation)
    requires c.Website?
  {
    '.' !in c.author && '"' !in c.title && ',' !in c.website && ',' !in c.date
  }

  /** Fields that do not contain the separator that ends them in the book template. */
  predicate BookSeparable(c: Citation)
    requires c.Book?
  {
    '.' !in c.author && '.' !in c.title && ',' !in c.publisher
  }

  /** A separable website citation reads back to its own fields. */
  lemma WebsiteParsesBack(c: Citation)
    requires c.Website? && WebsiteSeparable(c)
    ensures ParseWebsite(Render(c)) == Some(c)
  {
    var t4 := c.url + ".";
    var t3 := Joined(c.date, ',', " ", t4);
    var t2 := Joined(c.website, ',', " ", t3);
    var t1 := Joined(c.title, '"', " ", t2);
    StepAt(c.author, '.', " \"", t1);
    StepAt(c.title, '"', " ", t2);
    StepAt(c.website, ',', " ", t3);
    StepAt(c.date, ',', " ", t4);
    assert BeforeFinalStop(t4) == Some(c.url);
  }

  /** A separable book citation reads back to its own fields. */
  lemma BookParsesBack(c: Citation)
    requires c.Book? && BookSeparable(c)
    ensures ParseBook(Render(c)) == Some(c)
  {
    var t3 := c.year + ".";
    var t2 := Joined(c.publisher, ',', " ", t3);
    var t1 := Joined(c.title, '.', " ", t2);
    StepAt(c.author, '.', " ", t1);
    StepAt(c.title, '.', " ", t2);
    StepAt(c.publisher, ',', " ", t3);
    assert BeforeFinalStop(t3) == Some(c.year);
  }

  /** A website citation reads back to exactly the request's fields. */
  lemma WebsiteRoundTrip(data: CitationData)
    requires CitationType(data) == "website"
    requires WebsiteSeparable(FromRequest(data))
    ensures ParseWebsite(GenerateCitation(data)) == Some(FromRequest(data))
  {
    WebsiteParsesBack(FromRequest(data));
  }

  /** A book citation reads back to exactly the request's fields. */
  lemma BookRoundTrip(data: CitationData)
    requires CitationType(data) == "book"
    requires BookSeparable(FromRequest(data))
    ensures ParseBook(GenerateCitation(data)) == Some(FromRequest(data))
  {
    BookParsesBack(FromRequest(data));
  }

  /** Whatever reads as a website citation is the rendering of the fields read. */
  lemma ParsedWebsiteRenders(s: string)
    requires ParseWebsite(s).Some?
    ensures ParseWebsite(s).value.Website?
    ensures WebsiteSeparable(ParseWebsite(s).value)
    ensures Render(ParseWebsite(s).value) == s
  {
  }

  /** Whatever reads as a book citation is the rendering of the fields read. */
  lemma ParsedBookRenders(s: string)
    requires ParseBook(s).Some?
    ensures ParseBook(s).value.Book?
    ensures BookSeparable(ParseBook(s).value)
    ensures Render(ParseBook(s).value) == s
  {
  }

  /** A request without a type is formatted as a website. */
  lemma MissingTypeIsWebsite(data: CitationData)
    requires "type" !in data
    ensures GenerateCitation(data) == GenerateCitation(data["type" := "website"])
  {
  }

  /** A missing field is formatted as the empty string. */
  lemma MissingFieldIsEmpty(data: CitationData, key: string)
    requires key != "type" && key !in data
    ensures GenerateCitation(data) == GenerateCitation(data[key := ""])
  {
    var filled := data[key := ""];
    assert CitationType(filled) == CitationType(data);
    assert forall k :: Field(filled, k) == Field(data, k);
    assert FromRequest(filled) == FromRequest(data);
  }

  /** Text whose only full stop is its last character reads as neither template;
      the constant reply for unsupported types is such a text. */
  lemma SingleStopIsNoCitation(words: string)
    requires '.' !in words
    ensures ParseWebsite(words + ".") == None
    ensures ParseBook(words + ".") == None
  {
    var s := words + ".";
    SplitFirstAt(words, '.', "");
    assert words + ['.'] + "" == s;
    assert SplitFirst(s, '.') == Some((words, ""));
  }
}
