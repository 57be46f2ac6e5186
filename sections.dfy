/** The sectioning loop of `extract_individual_org` (scrape_yio.py:62-79).
    An organisation page's content is a flat run of nodes in which each `h2`
    heading is followed by the nodes of its section. The page is given as
    that list of nodes; selecting the content, removing scripts and writing
    the JSON file are not modelled. */
module Sections {
  import opened Text
  import opened Strings
  import opened Dicts

  /** A child of the content element: a tag, with its name, its markup
      (`str(tag)`) and its text (`tag.get_text()`), or a bare string. */
  datatype Node = Element(name: string, markup: string, text: string) | Str(value: string)

  predicate IsHeading(n: Node)
  {
    n.Element? && n.name == "h2"
  }

  /** `str(sibling)`. */
  function Render(n: Node): string
  {
    match n
    case Element(_, markup, _) => markup
    case Str(value) => value
  }

  /** The parts of the section that starts with `rest`: the rendering of
      each node up to the next heading, leaving out bare line feeds. */
  function SectionParts(rest: seq<Node>): (parts: seq<string>)
    ensures |parts| <= |rest|
  {
    if rest == [] || IsHeading(rest[0]) then []
    else (if rest[0] == Str("\n") then [] else [Render(rest[0])]) + SectionParts(rest[1..])
  }

  /** The value stored for the heading at index `h`. */
  function SectionText(nodes: seq<Node>, h: nat): (text: string)
    requires h < |nodes|
    ensures h + 1 == |nodes| || IsHeading(nodes[h + 1]) ==> text == ""
  {
    Join(SectionParts(nodes[h + 1..]), "\n")
  }

  /** `raw_data` after the headings among the first `n` nodes: it starts
      with the cleaned organisation name under `org_name`, and each heading
      in turn assigns its section's text to its namified title. */
  function RawData(h1Text: string, nodes: seq<Node>, n: nat): (d: Dict<string>)
    requires n <= |nodes|
    ensures d.Valid()
    ensures |d.keys| > 0 && d.keys[0] == "org_name"
  {
    if n == 0 then Empty<string>().Set("org_name", CleanText(h1Text))
    else
      var d := RawData(h1Text, nodes, n - 1);
      if IsHeading(nodes[n - 1]) then d.Set(Namify(nodes[n - 1].text), SectionText(nodes, n - 1))
      else d
  }

  /** The inner loop of scrape_yio.py:70-76: walk the siblings after the
      heading at `h`, stop at the next heading, and collect every sibling
      but a bare line feed. */
  method CollectSection(nodes: seq<Node>, h: nat) returns (rawSection: seq<string>)
    requires h < |nodes|
    ensures rawSection == SectionParts(nodes[h + 1..])
  {
    rawSection := [];
    var j := h + 1;
    while j < |nodes|
      invariant h + 1 <= j <= |nodes|
      invariant rawSection + SectionParts(nodes[j..]) == SectionParts(nodes[h + 1..])
    {
      if IsHeading(nodes[j]) {
        assert SectionParts(nodes[j..]) == [];
        break;
      }
      assert nodes[j..][1..] == nodes[j + 1..];
      if nodes[j] != Str("\n") {
        rawSection := rawSection + [Render(nodes[j])];
      }
      j := j + 1;
    }
  }

  /** The loop of scrape_yio.py:65-79: for each heading, collect its section
      and store the section's parts, joined by line feeds, under the
      namified heading. The result is the dictionary the source writes to
      its JSON file. */
  method ExtractIndividualOrg(h1Text: string, nodes: seq<Node>) returns (rawData: Dict<string>)
    ensures rawData == RawData(h1Text, nodes, |nodes|)
  {
    rawData := Empty();
    rawData := rawData.Set("org_name", CleanText(h1Text));
    for h := 0 to |nodes|
      invariant rawData == RawData(h1Text, nodes, h)
    {
      if IsHeading(nodes[h]) {
        var rawSection := CollectSection(nodes, h);
        rawData := rawData.Set(Namify(nodes[h].text), Join(rawSection, "\n"));
      }
    }
  }

  /** Some heading among the first `n` nodes namifies to `k`. */
  predicate HeadingKeyAmong(nodes: seq<Node>, n: nat, k: string)
    requires n <= |nodes|
  {
    n > 0 && (HeadingKeyAmong(nodes, n - 1, k) || (IsHeading(nodes[n - 1]) && Namify(nodes[n - 1].text) == k))
  }

  /** `HeadingKeyAmong` holds exactly when some heading before `n` has the key `k`. */
  lemma {:induction false} HeadingKeyAmongIff(nodes: seq<Node>, n: nat, k: string)
    requires n <= |nodes|
    ensures HeadingKeyAmong(nodes, n, k) <==>
              exists h :: 0 <= h < n && IsHeading(nodes[h]) && Namify(nodes[h].text) == k
  {
    if n > 0 {
      HeadingKeyAmongIff(nodes, n - 1, k);
      if !HeadingKeyAmong(nodes, n, k) {
        forall h | 0 <= h < n && IsHeading(nodes[h])
          ensures Namify(nodes[h].text) != k
        {
          if h < n - 1 {
            assert !(0 <= h < n - 1 && IsHeading(nodes[h]) && Namify(nodes[h].text) == k);
          }
        }
      }
    }
  }

  /** The keys of the result are `org_name` and the namified headings. */
  lemma {:induction false} RawDataKeys(h1Text: string, nodes: seq<Node>, n: nat, k: string)
    requires n <= |nodes|
    ensures k in RawData(h1Text, nodes, n).vals <==> k == "org_name" || HeadingKeyAmong(nodes, n, k)
  {
    if n > 0 {
      RawDataKeys(h1Text, nodes, n - 1, k);
    }
  }

  /** The value under a heading's key is its own section's text when no
      later heading has the same key: a later heading with the same key
      overwrites an earlier one. */
  lemma {:induction false} LastHeadingWins(h1Text: string, nodes: seq<Node>, n: nat, h: nat)
    requires h < n <= |nodes| && IsHeading(nodes[h])
    requires forall g :: h < g < n && IsHeading(nodes[g]) ==> Namify(nodes[g].text) != Namify(nodes[h].text)
    ensures Namify(nodes[h].text) in RawData(h1Text, nodes, n).vals
    ensures RawData(h1Text, nodes, n).vals[Namify(nodes[h].text)] == SectionText(nodes, h)
  {
    if n - 1 != h {
      LastHeadingWins(h1Text, nodes, n - 1, h);
    }
  }

  /** The cleaned organisation name survives unless some heading namifies
      to `org_name`. */
  lemma {:induction false} NameKept(h1Text: string, nodes: seq<Node>, n: nat)
    requires n <= |nodes|
    requires forall g :: 0 <= g < n && IsHeading(nodes[g]) ==> Namify(nodes[g].text) != "org_name"
    ensures RawData(h1Text, nodes, n).vals["org_name"] == CleanText(h1Text)
  {
    if n > 0 {
      NameKept(h1Text, nodes, n - 1);
      assert "org_name" in RawData(h1Text, nodes, n - 1).vals;
    }
  }

  /** A section ends at the next heading: what follows it does not matter. */
  lemma {:induction false} SectionStopsAtHeading(a: seq<Node>, heading: Node, b: seq<Node>)
    requires IsHeading(heading)
    requires forall i :: 0 <= i < |a| ==> !IsHeading(a[i])
    ensures SectionParts(a + [heading] + b) == SectionParts(a)
  {
    if a != [] {
      assert (a + [heading] + b)[1..] == a[1..] + [heading] + b;
      SectionStopsAtHeading(a[1..], heading, b);
    } else {
      assert (a + [heading] + b)[0] == heading;
    }
  }

  /** Within a section, every node but a bare line feed is kept, rendered,
      in document order. */
  lemma {:induction false} SectionKeepsOrder(a: seq<Node>)
    requires forall i :: 0 <= i < |a| ==> !IsHeading(a[i]) && a[i] != Str("\n")
    ensures SectionParts(a) == seq(|a|, i requires 0 <= i < |a| => Render(a[i]))
  {
    if a != [] {
      SectionKeepsOrder(a[1..]);
    }
  }

  /** Before the next heading a section reads its nodes one by one: the
      parts of `a + b` are those of `a` followed by those of `b`. */
  lemma {:induction false} SectionPartsConcat(a: seq<Node>, b: seq<Node>)
    requires forall i :: 0 <= i < |a| ==> !IsHeading(a[i])
    ensures SectionParts(a + b) == SectionParts(a) + SectionParts(b)
  {
    if a == [] {
      assert a + b == b;
    } else {
      assert (a + b)[1..] == a[1..] + b;
      SectionPartsConcat(a[1..], b);
    }
  }

  /** A bare line feed inside a section leaves no part, and every other
      node that is not a heading leaves its rendering, in place. */
  lemma SectionSkipsLineFeed(a: seq<Node>, n: Node, b: seq<Node>)
    requires forall i :: 0 <= i < |a| ==> !IsHeading(a[i])
    requires !IsHeading(n)
    ensures SectionParts(a + [n] + b) ==
              SectionParts(a) + (if n == Str("\n") then [] else [Render(n)]) + SectionParts(b)
  {
    var an := a + [n];
    forall i | 0 <= i < |an|
      ensures !IsHeading(an[i])
    {
      if i < |a| {
        assert an[i] == a[i];
      }
    }
    SectionPartsConcat(an, b);
    SectionPartsConcat(a, [n]);
    assert [n][1..] == [];
  }
}
