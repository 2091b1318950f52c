/** price_info: the fields of one detail page, read off the markup of its
    fragments with Python string splits. */
module Extract {
  import opened Wrappers
  import opened Text

  /** The site base put in front of lot links. */
  const Base := "https://www.psacard.com"

  /** A text cell that may be NaN (math.nan in the source). */
  datatype Cell = Missing | Present(text: string)

  /** The fragments of one page, one list per class marker, in document order.
      Fields read with str(tag) hold the fragment's markup; fields read with
      tag.string hold its text. */
  datatype Page = Page(
    images: seq<string>,     // item-image, markup
    prices: seq<string>,     // item item-price, text
    dates: seq<string>,      // item item-date, text
    grades: seq<string>,     // item item-grade, markup
    lots: seq<string>,       // item item-lot, markup
    houses: seq<string>,     // item item-auctionhouse, text
    sellers: seq<string>,    // item item-auctionname, text
    saleTypes: seq<string>,  // item item-auctiontype, text
    certs: seq<string>)      // item item-cert, markup

  /** The dictionary price_info returns. Prices are kept as the text handed
      to float(). */
  datatype Info = Info(
    names: seq<string>,
    dates: seq<string>,
    grades: seq<string>,
    qualifiers: seq<Cell>,
    prices: seq<string>,
    houses: seq<string>,
    sellers: seq<string>,
    saleTypes: seq<string>,
    certs: seq<string>,
    imageUrls: seq<Cell>,
    lotUrls: seq<Cell>)

  // ------------------------------------------------------------ one fragment

  /** The link target of an image or lot fragment: Missing when "href" does
      not occur, otherwise html.split('href="')[1].split('"')[0], which raises
      IndexError when "href" occurs but 'href="' does not. */
  function HrefTarget(html: string): (r: Result<Cell>)
    ensures r.Ok? && r.value.Missing? <==> !Contains(html, "href")
    ensures r.Crash? <==> Contains(html, "href") && !Contains(html, "href=\"")
    ensures r.Ok? && r.value.Present? ==> '"' !in r.value.text
  {
    if !Contains(html, "href") then Ok(Missing)
    else match SplitSecond(html, "href=\"")
      case None => Crash("IndexError: no 'href=\"' in fragment")
      case Some(field) =>
        BeforeCharFree(field, '"');
        Ok(Present(Before(field, "\"")))
  }

  /** The image or lot link is the text between the first 'href="' and the
      next '"', provided that quote comes before any second 'href="'. */
  lemma HrefTargetBetween(html: string)
    requires Contains(html, "href=\"")
    requires var x := After(html, "href=\"").value;
             IndexOf(x, "href=\"").None? ||
             (IndexOf(x, "\"").Some? && IndexOf(x, "\"").value <= IndexOf(x, "href=\"").value)
    ensures Contains(html, "href")
    ensures HrefTarget(html) == Ok(Present(Before(After(html, "href=\"").value, "\"")))
  {
    HrefImpliesHref(html);
    BeforeBefore(After(html, "href=\"").value, "href=\"", "\"");
  }

  /** A fragment containing 'href="' contains "href". */
  lemma HrefImpliesHref(html: string)
    requires Contains(html, "href=\"")
    ensures Contains(html, "href")
  {
    var i := IndexOf(html, "href=\"").value;
    assert html[i..i + 4] == html[i..i + 6][..4];
    assert OccursAt(html, "href", i);
  }

  /** With a second 'href="' before the closing quote, the split stops at it:
      the link read is "a", not the text "ahref=" up to the quote. */
  lemma HrefTargetStopsAtSecondHref()
    ensures HrefTarget("href=\"ahref=\"b\"") == Ok(Present("a"))
  {
    var html := "href=\"ahref=\"b\"";
    assert OccursAt(html, "href", 0);
    assert OccursAt(html, "href=\"", 0);
    var x := html[6..];
    assert x == "ahref=\"b\"";
    assert |x| == 9 && |"href=\""| == 6;
    assert x[1..7] == "href=\"";
    assert OccursAt(x, "href=\"", 1);
    assert x[0..6][0] == 'a';
    assert !OccursAt(x, "href=\"", 0);
    assert IndexOf(x, "href=\"") == Some(1);
    assert "a"[0..1] == "a";
    assert forall j: nat :: !OccursAt("a", "\"", j);
    assert IndexOf(html, "href=\"") == Some(0);
    assert After(html, "href=\"") == Some(x);
    assert x[..1] == "a";
    assert SplitSecond(html, "href=\"") == Some("a");
    assert IndexOf("a", "\"") == None;
  }

  /** The grade: html.split("</span>")[1].split("<")[0].strip(); IndexError
      when "</span>" does not occur. */
  function GradeOf(html: string): (r: Result<string>)
    ensures r.Ok? <==> Contains(html, "</span>")
  {
    match SplitSecond(html, "</span>")
    case None => Crash("IndexError: no '</span>' in grade fragment")
    case Some(field) => Ok(Strip(Before(field, "<")))
  }

  /** The qualifier: html.split("<strong>")[1].split("<")[0].strip() when
      "<strong>" occurs, NaN otherwise. */
  function QualifierOf(html: string): (r: Cell)
    ensures r.Present? <==> Contains(html, "<strong>")
  {
    match SplitSecond(html, "<strong>")
    case None => Missing
    case Some(field) => Present(Strip(Before(field, "<")))
  }

  /** The certification number: str(n).split("</span>")[1].split("<")[0],
      not trimmed; IndexError when "</span>" does not occur. */
  function CertOf(html: string): (r: Result<string>)
    ensures r.Ok? <==> Contains(html, "</span>")
  {
    match SplitSecond(html, "</span>")
    case None => Crash("IndexError: no '</span>' in cert fragment")
    case Some(field) => Ok(Before(field, "<"))
  }

  /** The text after the first sep up to the next "<", for a sep beginning
      with "<": what the double split reads. */
  function TagText(html: string, sep: string): (t: string)
    requires Contains(html, sep)
    ensures '<' !in t
  {
    var x := After(html, sep).value;
    BeforeCharFree(x, '<');
    Before(x, "<")
  }

  /** The grade is the trimmed text between the first "</span>" and the next
      "<", so it holds no "<" and has no surrounding whitespace. */
  lemma GradeBetween(html: string)
    requires Contains(html, "</span>")
    ensures GradeOf(html) == Ok(Strip(TagText(html, "</span>")))
    ensures '<' !in GradeOf(html).value
  {
    BeforeSepBeginningWithStop(After(html, "</span>").value, "</span>", "<");
    StripKeepsOut(TagText(html, "</span>"), Whitespace, '<');
  }

  /** The qualifier is the trimmed text between the first "<strong>" and the
      next "<". */
  lemma QualifierBetween(html: string)
    requires Contains(html, "<strong>")
    ensures QualifierOf(html) == Present(Strip(TagText(html, "<strong>")))
    ensures '<' !in QualifierOf(html).text
  {
    BeforeSepBeginningWithStop(After(html, "<strong>").value, "<strong>", "<");
    StripKeepsOut(TagText(html, "<strong>"), Whitespace, '<');
  }

  /** The certification number is the untrimmed text between the first
      "</span>" and the next "<". */
  lemma CertBetween(html: string)
    requires Contains(html, "</span>")
    ensures CertOf(html) == Ok(TagText(html, "</span>"))
  {
    BeforeSepBeginningWithStop(After(html, "</span>").value, "</span>", "<");
  }

  /** The text handed to float(): n.string.strip("$").replace(",", ""). */
  function PriceText(s: string): (r: string)
    ensures ',' !in r
    ensures forall c :: c != ',' ==> multiset(r)[c] == multiset(StripSet(s, {'$'}))[c]
    ensures ',' !in StripSet(s, {'$'}) ==> r == StripSet(s, {'$'})
  {
    RemoveAll(StripSet(s, {'$'}), ',')
  }

  /** A comma is dropped and the text on both sides of it stays in order. */
  lemma PriceTextDropsComma(s: string, a: string, b: string)
    requires StripSet(s, {'$'}) == a + [','] + b
    ensures PriceText(s) == RemoveAll(a, ',') + RemoveAll(b, ',')
  {
    var comma: string := [','];
    assert RemoveAll(comma, ',') == [] + RemoveAll(comma[1..], ',');
    RemoveAllAppend(a, comma, ',');
    RemoveAllAppend(a + comma, b, ',');
  }

  /** A dollar amount with a thousands separator, such as "$1,234", becomes
      its digits in order, "1234". */
  lemma PriceTextThousands(a: string, b: string)
    requires a != [] && b != []
    requires forall k :: 0 <= k < |a| ==> IsDigit(a[k])
    requires forall k :: 0 <= k < |b| ==> IsDigit(b[k])
    ensures PriceText(['$'] + a + [','] + b) == a + b
  {
    var t := a + [','] + b;
    assert t[0] == a[0] && t[|t| - 1] == b[|b| - 1];
    assert ['$'] + a + [','] + b == ['$'] + t;
    StripOneDollar(t);
    assert ',' !in a by {
      forall k | 0 <= k < |a| ensures a[k] != ',' { assert IsDigit(a[k]); }
    }
    assert ',' !in b by {
      forall k | 0 <= k < |b| ensures b[k] != ',' { assert IsDigit(b[k]); }
    }
    PriceTextDropsComma(['$'] + t, a, b);
  }

  /** strip("$") removes a single leading dollar sign from a price without others at its ends. */
  lemma StripOneDollar(t: string)
    requires t != [] && t[0] != '$' && t[|t| - 1] != '$'
    ensures StripSet(['$'] + t, {'$'}) == t
  {
    var s := ['$'] + t;
    assert SkipLeft(s, {'$'}, 1) == 1;
    assert SkipRight(s, {'$'}, 1, |s|) == |s|;
    assert s[1..] == t;
  }

  /** The price text neither begins nor ends with "$" unless a comma stood
      between dollar signs at that end. */
  lemma PriceTextEnds(s: string)
    requires var t := StripSet(s, {'$'}); t != [] ==> t[0] != ',' && t[|t| - 1] != ','
    ensures var r := PriceText(s); r != [] ==> r[0] != '$' && r[|r| - 1] != '$'
  {
    var t := StripSet(s, {'$'});
    if t != [] {
      assert t == [t[0]] + t[1..];
      assert t == t[..|t| - 1] + [t[|t| - 1]];
      RemoveAllFirst(t, ',');
      RemoveAllLast(t, ',');
    }
  }

  /** Removing c keeps a first character other than c in front. */
  lemma RemoveAllFirst(t: string, c: char)
    requires t != [] && t[0] != c
    ensures RemoveAll(t, c) != [] && RemoveAll(t, c)[0] == t[0]
  {
  }

  /** Removing c keeps a last character other than c at the end. */
  lemma {:induction false} RemoveAllLast(t: string, c: char)
    requires t != [] && t[|t| - 1] != c
    ensures RemoveAll(t, c) != [] && RemoveAll(t, c)[|RemoveAll(t, c)| - 1] == t[|t| - 1]
  {
    if |t| > 1 {
      RemoveAllLast(t[1..], c);
    }
  }

  /** "$,$5" becomes "$5": the comma shields the inner dollar sign from strip. */
  lemma PriceTextCommaShield()
    ensures PriceText("$,$5") == "$5"
  {
    var s := "$,$5";
    assert SkipLeft(s, {'$'}, 1) == 1;
    assert SkipLeft(s, {'$'}, 0) == 1;
    assert SkipRight(s, {'$'}, 1, 4) == 4;
    assert StripSet(s, {'$'}) == ",$5";
    assert ",$5"[1..] == "$5" && "$5"[1..] == "5" && "5"[1..] == "";
    assert RemoveAll(",$5", ',') == "$5";
  }

  // ------------------------------------------------------------ whole lists

  /** The price list: one price text per price fragment. */
  function Prices(frags: seq<string>): (r: seq<string>)
    ensures |r| == |frags|
    ensures forall i :: 0 <= i < |r| ==> ',' !in r[i]
    ensures forall i :: 0 <= i < |r| ==> r[i] == PriceText(frags[i])
  {
    seq(|frags|, i requires 0 <= i < |frags| => PriceText(frags[i]))
  }

  /** The certification list; it fails as soon as one fragment has no "</span>". */
  function Certs(frags: seq<string>): (r: Result<seq<string>>)
    ensures r.Ok? <==> forall i :: 0 <= i < |frags| ==> Contains(frags[i], "</span>")
    ensures r.Ok? ==> |r.value| == |frags|
    ensures r.Ok? ==> forall i :: 0 <= i < |frags| ==> CertOf(frags[i]) == Ok(r.value[i])
  {
    if frags == [] then Ok([])
    else match CertOf(frags[0])
      case Crash(reason) => Crash(reason)
      case Ok(c) =>
        match Certs(frags[1..])
        case Crash(reason) => Crash(reason)
        case Ok(cs) => Ok([c] + cs)
  }

  /** The cell stored for a link target: lot links get the site base in front. */
  function WithBase(prefix: string, c: Cell): (r: Cell)
    ensures r.Missing? <==> c.Missing?
    ensures r.Present? ==> r.text == prefix + c.text
  {
    match c
    case Missing => Missing
    case Present(u) => Present(prefix + u)
  }

  /** The image loop (prefix "") or the lot loop (prefix Base): one cell per
      fragment, Missing where the fragment has no "href". */
  method CollectLinks(frags: seq<string>, prefix: string) returns (r: Result<seq<Cell>>)
    ensures r.Ok? <==> forall i :: 0 <= i < |frags| ==> HrefTarget(frags[i]).Ok?
    ensures r.Ok? ==> |r.value| == |frags|
    ensures r.Ok? ==> forall i :: 0 <= i < |frags| ==> r.value[i] == WithBase(prefix, HrefTarget(frags[i]).value)
  {
    var cells: seq<Cell> := [];
    var i := 0;
    while i < |frags|
      invariant 0 <= i <= |frags|
      invariant forall j :: 0 <= j < i ==> HrefTarget(frags[j]).Ok?
      invariant |cells| == i
      invariant forall j :: 0 <= j < i ==> cells[j] == WithBase(prefix, HrefTarget(frags[j]).value)
    {
      var target := HrefTarget(frags[i]);
      if target.Crash? {
        return Crash(target.reason);
      }
      cells := cells + [WithBase(prefix, target.value)];
      i := i + 1;
    }
    return Ok(cells);
  }

  /** The two lists the grade loop builds. */
  datatype Graded = Graded(grades: seq<string>, qualifiers: seq<Cell>)

  /** The first i grades and qualifiers are those of the first i fragments. */
  predicate GradedUpTo(frags: seq<string>, g: Graded, i: nat) {
    i <= |frags| && |g.grades| == i && |g.qualifiers| == i &&
    (forall j :: 0 <= j < i ==> GradeOf(frags[j]) == Ok(g.grades[j])) &&
    (forall j :: 0 <= j < i ==> g.qualifiers[j] == QualifierOf(frags[j]))
  }

  /** One more iteration of the grade loop. */
  lemma GradedStep(frags: seq<string>, g: Graded, i: nat)
    requires GradedUpTo(frags, g, i) && i < |frags| && GradeOf(frags[i]).Ok?
    ensures GradedUpTo(frags, Graded(g.grades + [GradeOf(frags[i]).value], g.qualifiers + [QualifierOf(frags[i])]), i + 1)
  {
    var grades := g.grades + [GradeOf(frags[i]).value];
    var quals := g.qualifiers + [QualifierOf(frags[i])];
    forall j | 0 <= j < i + 1
      ensures GradeOf(frags[j]) == Ok(grades[j]) && quals[j] == QualifierOf(frags[j])
    {
      if j < i {
        assert grades[j] == g.grades[j] && quals[j] == g.qualifiers[j];
      }
    }
  }

  /** The grade loop: a grade and a qualifier per fragment; IndexError as soon
      as one fragment has no "</span>". */
  method CollectGrades(frags: seq<string>) returns (r: Result<Graded>)
    ensures r.Ok? <==> forall i :: 0 <= i < |frags| ==> Contains(frags[i], "</span>")
    ensures r.Ok? ==> GradedUpTo(frags, r.value, |frags|)
  {
    var grades: seq<string> := [];
    var quals: seq<Cell> := [];
    var i := 0;
    while i < |frags|
      invariant i <= |frags|
      invariant forall j :: 0 <= j < i ==> Contains(frags[j], "</span>")
      invariant GradedUpTo(frags, Graded(grades, quals), i)
    {
      var grade := GradeOf(frags[i]);
      if grade.Crash? {
        return Crash(grade.reason);
      }
      GradedStep(frags, Graded(grades, quals), i);
      grades := grades + [grade.value];
      quals := quals + [QualifierOf(frags[i])];
      i := i + 1;
    }
    return Ok(Graded(grades, quals));
  }

  /** price_info for one page and the player's name. Every list has one entry
      per fragment of its own class; names has one copy of the player's name
      per date fragment. */
  method PriceInfo(page: Page, name: string) returns (r: Result<Info>)
    ensures r.Ok? <==>
              (forall i :: 0 <= i < |page.images| ==> HrefTarget(page.images[i]).Ok?) &&
              (forall i :: 0 <= i < |page.grades| ==> Contains(page.grades[i], "</span>")) &&
              (forall i :: 0 <= i < |page.lots| ==> HrefTarget(page.lots[i]).Ok?) &&
              (forall i :: 0 <= i < |page.certs| ==> Contains(page.certs[i], "</span>"))
    ensures r.Ok? ==> var info := r.value;
              && |info.names| == |page.dates| && (forall i :: 0 <= i < |info.names| ==> info.names[i] == name)
              && info.dates == page.dates
              && info.houses == page.houses
              && info.sellers == page.sellers
              && info.saleTypes == page.saleTypes
              && |info.prices| == |page.prices|
              && (forall i :: 0 <= i < |page.prices| ==> info.prices[i] == PriceText(page.prices[i]))
              && GradedUpTo(page.grades, Graded(info.grades, info.qualifiers), |page.grades|)
              && |info.certs| == |page.certs|
              && (forall i :: 0 <= i < |page.certs| ==> CertOf(page.certs[i]) == Ok(info.certs[i]))
              && |info.imageUrls| == |page.images|
              && (forall i :: 0 <= i < |page.images| ==> info.imageUrls[i] == HrefTarget(page.images[i]).value)
              && |info.lotUrls| == |page.lots|
              && (forall i :: 0 <= i < |page.lots| ==> info.lotUrls[i] == WithBase(Base, HrefTarget(page.lots[i]).value))
  {
    var images := CollectLinks(page.images, "");
    if images.Crash? {
      return Crash(images.reason);
    }
    var prices := Prices(page.prices);
    var grades := CollectGrades(page.grades);
    if grades.Crash? {
      return Crash(grades.reason);
    }
    var lots := CollectLinks(page.lots, Base);
    if lots.Crash? {
      return Crash(lots.reason);
    }
    var certs := Certs(page.certs);
    if certs.Crash? {
      return Crash(certs.reason);
    }
    var names := seq(|page.dates|, _ => name);
    assert forall i :: 0 <= i < |page.images| ==> images.value[i] == HrefTarget(page.images[i]).value by {
      forall i | 0 <= i < |page.images| ensures images.value[i] == HrefTarget(page.images[i]).value {
        match HrefTarget(page.images[i]).value
        case Missing =>
        case Present(u) => assert "" + u == u;
      }
    }
    return Ok(Info(names, page.dates, grades.value.grades, grades.value.qualifiers, prices, page.houses,
                   page.sellers, page.saleTypes, certs.value, images.value, lots.value));
  }
}
