/** Whole XML plist documents: the prolog, the round trip and exactly which trees it keeps. */
module XmlDocument {
  import opened Words
  import opened Dictionaries
  import opened Plists
  import opened Base64
  import opened PlistDate
  import opened XmlText
  import opened XmlFormat
  import opened XmlRoundTrip

  // ---------------------------------------------------------------------------
  // The round trip of a document
  // ---------------------------------------------------------------------------

  lemma {:induction false} SkipToBack(body: Bytes, rest: Bytes)
    requires GREATER !in body
    ensures SkipTo(body + ([GREATER] + rest), GREATER) == rest
  {
    var s := body + ([GREATER] + rest);
    if body == [] {
      assert s == [GREATER] + rest;
    } else {
      assert body[0] in body;
      assert s[1..] == body[1..] + ([GREATER] + rest);
      SkipToBack(body[1..], rest);
    }
  }

  /** A literal holds no `>`. */
  predicate PlainLiteral(text: string) {
    forall c :: c in text ==> c != '>' && c < 128 as char
  }

  lemma LiteralIsPlain(text: string)
    requires PlainLiteral(text)
    ensures GREATER !in Ascii(text)
  {
    forall i | 0 <= i < |text|
      ensures Ascii(text)[i] != GREATER
    {
      assert text[i] in text;
    }
  }

  lemma DeclarationIsPlain()
    ensures GREATER !in Declaration() && [LESS, 0x3f] <= Declaration()
  {
    LiteralIsPlain("<?xml version=\"1.0\"");
    LiteralIsPlain(" encoding=\"UTF-8\"?");
  }

  lemma DoctypeStart()
    ensures GREATER !in Ascii("<!DOCTYPE plist PUBLIC") && [LESS, 0x21, 0x44] <= Ascii("<!DOCTYPE plist PUBLIC")
    ensures GREATER !in Ascii(" \"-//Apple//DTD PLIST")
  {
    LiteralIsPlain("<!DOCTYPE plist PUBLIC");
    LiteralIsPlain(" \"-//Apple//DTD PLIST");
  }

  lemma DoctypeEnd()
    ensures GREATER !in Ascii(" 1.0//EN\" \"http://www.")
    ensures GREATER !in Ascii("apple.com/DTDs/") && GREATER !in Ascii("PropertyList-1.0.dtd\"")
  {
    LiteralIsPlain(" 1.0//EN\" \"http://www.");
    LiteralIsPlain("apple.com/DTDs/");
    LiteralIsPlain("PropertyList-1.0.dtd\"");
  }

  lemma DoctypeIsPlain()
    ensures GREATER !in Doctype() && [LESS, 0x21, 0x44] <= Doctype()
  {
    hide Ascii;
    DoctypeStart();
    DoctypeEnd();
  }

  lemma RootIsPlain()
    ensures GREATER !in Ascii(" version=\"1.0\"")
    ensures |Ascii("<plist")| == 6 && [LESS, 0x70] <= Ascii("<plist")
  {
    LiteralIsPlain(" version=\"1.0\"");
  }

  lemma SkipLine(s: Bytes)
    requires s != [] && !IsSpace(s[0])
    ensures SkipSpace([NEW_LINE] + s) == s
  {
    assert ([NEW_LINE] + s)[1..] == s;
  }

  /** The printed prolog is skipped, up to the root element. */
  lemma PrologBack(rest: Bytes)
    ensures var root := Root() + ([GREATER] + rest);
            var doctype := Doctype() + ([GREATER] + ([NEW_LINE] + root));
            SkipProlog(Declaration() + ([GREATER] + ([NEW_LINE] + doctype))) == root
  {
    DeclarationIsPlain();
    DoctypeIsPlain();
    RootIsPlain();
    hide Ascii, Declaration, Doctype, SkipTo, SkipComment, SkipSpace;
    var root := Root() + ([GREATER] + rest);
    var afterDoctype := [NEW_LINE] + root;
    var doctype := Doctype() + ([GREATER] + afterDoctype);
    var s := Declaration() + ([GREATER] + ([NEW_LINE] + doctype));
    assert s[0] == LESS && s[1] == 0x3f;
    SkipToBack(Declaration(), [NEW_LINE] + doctype);
    assert doctype[0] == LESS && doctype[1] == 0x21 && doctype[2] == 0x44;
    SkipLine(doctype);
    SkipToBack(Doctype(), afterDoctype);
    assert root[0] == LESS && root[1] == 0x70;
    SkipLine(root);
    PrologStep(s);
    PrologStep([NEW_LINE] + doctype);
    PrologStep(afterDoctype);
  }

  /**
   Printing a document and parsing it gives the value's normal form, or fails where a date
   does not parse, whatever the tree.
   */
  lemma DocumentIsNormal(v: Plist, reals: Reals)
    requires Plain(reals) && v.WellFormed()
    ensures ParseDocument(Document(v, reals), reals) ==
            match Normal(v, reals) { case Some(n) => Ok(n) case None => Err(Protocol) }
  {
    hide Xml, Normal, ParseValue, SkipProlog, Ascii, Declaration, Doctype, SkipTo, Consume;
    var after := Ascii("</plist>") + [NEW_LINE];
    var body := Xml(v, reals) + after;
    RootIsPlain();
    PrologBack(body);
    var version := Ascii(" version=\"1.0\"");
    assert Root() + ([GREATER] + body) == Ascii("<plist") + (version + ([GREATER] + body));
    ConsumeHere(Ascii("<plist"), version + ([GREATER] + body));
    SkipToBack(version, body);
    ValueBack(v, after, reals);
  }

  // ---------------------------------------------------------------------------
  // Exactly which trees come back
  // ---------------------------------------------------------------------------

  /** No uid, dates in the years 0 to 9999, and reals that the text functions carry. */
  ghost predicate Survives(v: Plist, reals: Reals) {
    match v
    case Real(bits) => reals.scan(reals.show(bits)) == bits
    case Date(seconds) => 0 <= DateOf(seconds).year <= 9999
    case Uid(_) => false
    case Array(items) => forall i :: 0 <= i < |items| ==> Survives(items[i], reals)
    case Dictionary(entries) => forall i :: 0 <= i < |entries| ==> Survives(entries[i].value, reals)
    case _ => true
  }

  lemma {:induction false} NormalExactly(v: Plist, reals: Reals)
    ensures Normal(v, reals) == Some(v) <==> Survives(v, reals)
    decreases v, 1
  {
    hide NormalItems, NormalEntries, ParsedDate, FormatDate, Clamp, DateOf;
    match v
    case Date(seconds) => DateTextExactly(seconds);
    case Array(items) =>
      ItemsExactly(items, 0, reals);
      assert items[0..] == items;
    case Dictionary(entries) =>
      EntriesExactly(entries, 0, reals);
      assert entries[0..] == entries;
    case _ =>
  }

  lemma {:induction false} ItemsExactly(items: seq<Plist>, index: nat, reals: Reals)
    requires index <= |items|
    ensures NormalItems(items, index, reals) == Some(items[index..]) <==>
            forall i :: index <= i < |items| ==> Survives(items[i], reals)
    decreases items, |items| - index
  {
    hide Normal, Survives;
    if index < |items| {
      NormalExactly(items[index], reals);
      ItemsExactly(items, index + 1, reals);
      var more := NormalItems(items, index + 1, reals);
      assert items[index..] == [items[index]] + items[index + 1..];
      if more.Some? && Normal(items[index], reals).Some? {
        SameHeadAndTail(Normal(items[index], reals).value, more.value, items[index], items[index + 1..]);
      }
    } else {
      assert items[index..] == [];
    }
  }

  lemma SameHeadAndTail<T>(a: T, s: seq<T>, b: T, t: seq<T>)
    ensures [a] + s == [b] + t <==> a == b && s == t
  {
    if [a] + s == [b] + t {
      assert ([a] + s)[0] == ([b] + t)[0];
      assert ([a] + s)[1..] == s && ([b] + t)[1..] == t;
    }
  }

  lemma {:induction false} EntriesExactly(entries: seq<Entry<Plist>>, index: nat, reals: Reals)
    requires index <= |entries|
    ensures NormalEntries(entries, index, reals) == Some(entries[index..]) <==>
            forall i :: index <= i < |entries| ==> Survives(entries[i].value, reals)
    decreases entries, |entries| - index
  {
    hide Normal, Survives, NormalEntries;
    NormalEntriesFrom(entries, index, reals);
    if index < |entries| {
      var entry := entries[index];
      NormalExactly(entry.value, reals);
      EntriesExactly(entries, index + 1, reals);
      var more := NormalEntries(entries, index + 1, reals);
      assert entries[index..] == [entry] + entries[index + 1..];
      if more.Some? && Normal(entry.value, reals).Some? {
        SameHeadAndTail(Entry(entry.key, Normal(entry.value, reals).value), more.value, entry, entries[index + 1..]);
      }
    } else {
      assert entries[index..] == [];
    }
  }

  /** The round trip with its exact condition. */
  lemma XmlRoundTripExactly(v: Plist, reals: Reals)
    requires Plain(reals) && v.WellFormed()
    ensures ParseDocument(Document(v, reals), reals) == Ok(v) <==> Survives(v, reals)
  {
    hide ParseDocument, Document, Normal, Survives;
    DocumentIsNormal(v, reals);
    NormalExactly(v, reals);
  }

  /** A uid comes back as an integer. */
  lemma UidComesBackAsInteger(reals: Reals)
    requires Plain(reals)
    ensures ParseDocument(Document(Uid(5), reals), reals) == Ok(Integer(5))
  {
    hide ParseDocument, Document;
    DocumentIsNormal(Uid(5), reals);
  }

  /** The first second of the year 10000 does not come back at all. */
  lemma YearTenThousandFails(reals: Reals)
    requires Plain(reals)
    ensures ParseDocument(Document(Date(252_423_993_600), reals), reals) == Err(Protocol)
  {
    hide ParseDocument, Document, FormatDate, ParsedDate;
    FirstOfYearTenThousand();
    OtherShortYearsRefused(252_423_993_600);
    DocumentIsNormal(Date(252_423_993_600), reals);
  }
}
