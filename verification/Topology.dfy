/** Reading the link file (`read_links` in lsa/genlsa.py). */
module Topology {
  import opened Text
  import opened Walks

  /** Every line of the file names at least two nodes (`read_links` raises IndexError otherwise). */
  predicate LinesComplete(lines: seq<seq<string>>) {
    forall l | l in lines :: |l| >= 2
  }

  /** What one line contributes to the neighbour list of `a`. */
  function LineNeighbors(line: seq<string>, a: Name): seq<Name>
    requires |line| >= 2
  {
    (if line[0] == a then [line[1]] else []) + (if line[1] == a then [line[0]] else [])
  }

  /** The other ends of the links that mention `a`, in file order: the reference for one entry of the map. */
  function Mentions(lines: seq<seq<string>>, a: Name): seq<Name>
    requires LinesComplete(lines)
  {
    if lines == [] then []
    else Mentions(lines[..|lines| - 1], a) + LineNeighbors(lines[|lines| - 1], a)
  }

  function Named(lines: seq<seq<string>>): set<Name>
    requires LinesComplete(lines)
  {
    set l, k | l in lines && 0 <= k < 2 :: l[k]
  }

  /** `links` is the topology that the file describes. */
  ghost predicate Describes(lines: seq<seq<string>>, links: Links) {
    && LinesComplete(lines)
    && links.Keys == Named(lines)
    && forall a | a in links :: links[a] == Mentions(lines, a)
  }

  /** The one topology that a complete file describes. */
  ghost function LinksOf(lines: seq<seq<string>>): (links: Links)
    requires LinesComplete(lines)
    ensures Describes(lines, links) && Closed(links) && Symmetric(links)
    ensures forall g | Describes(lines, g) :: g == links
  {
    var links := map a | a in Named(lines) :: Mentions(lines, a);
    TopologyWellFormed(lines, links);
    links
  }

  /** The body of the loop: make sure both ends are nodes, then list each under the other. */
  method AddLink(links: Links, line: seq<string>) returns (r: Links)
    requires |line| >= 2
    ensures r.Keys == links.Keys + {line[0], line[1]}
    ensures forall a | a in r :: r[a] == (if a in links then links[a] else []) + LineNeighbors(line, a)
  {
    r := links;
    if line[0] !in r {
      r := r[line[0] := []];
    }
    if line[1] !in r {
      r := r[line[1] := []];
    }
    r := r[line[0] := r[line[0]] + [line[1]]];
    r := r[line[1] := r[line[1]] + [line[0]]];
  }

  /** `read_links`: fills the dictionary line by line. `None` is the IndexError of a short line. */
  method ReadLinks(lines: seq<seq<string>>) returns (r: Option<Links>)
    ensures r.Some? <==> LinesComplete(lines)
    ensures r.Some? ==> Describes(lines, r.value)
  {
    var links: Links := map[];
    for i := 0 to |lines|
      invariant Describes(lines[..i], links)
    {
      assert lines[i] in lines;
      if |lines[i]| < 2 {
        return None;
      }
      hide Named, Mentions, LineNeighbors;
      var longer := AddLink(links, lines[i]);
      DescribesSnoc(lines[..i], lines[i], links, longer);
      assert lines[..i + 1] == lines[..i] + [lines[i]];
      links := longer;
    }
    assert lines[..|lines|] == lines;
    return Some(links);
  }

  // ----- lemmas

  lemma NamedSnoc(lines: seq<seq<string>>, line: seq<string>)
    requires LinesComplete(lines) && |line| >= 2
    ensures LinesComplete(lines + [line])
    ensures Named(lines + [line]) == Named(lines) + {line[0], line[1]}
  {
    var all := lines + [line];
    assert forall l :: l in all <==> l in lines || l == line;
    assert line in all;
    assert all[|lines|][0] in Named(all) && all[|lines|][1] in Named(all);
    forall x | x in Named(lines)
      ensures x in Named(all)
    {
      var l, k :| l in lines && 0 <= k < 2 && l[k] == x;
      assert l in all;
    }
  }

  lemma {:induction false} UnnamedHasNoMentions(lines: seq<seq<string>>, a: Name)
    requires LinesComplete(lines)
    ensures a !in Named(lines) ==> Mentions(lines, a) == []
  {
    if lines != [] {
      var init, last := lines[..|lines| - 1], lines[|lines| - 1];
      assert lines == init + [last];
      NamedSnoc(init, last);
      UnnamedHasNoMentions(init, a);
    }
  }

  /** One more line, in terms of the map before and after it. */
  lemma DescribesSnoc(lines: seq<seq<string>>, line: seq<string>, before: Links, after: Links)
    requires Describes(lines, before) && |line| >= 2
    requires after.Keys == before.Keys + {line[0], line[1]}
    requires forall a | a in after ::
               after[a] == (if a in before then before[a] else []) + LineNeighbors(line, a)
    ensures Describes(lines + [line], after)
  {
    NamedSnoc(lines, line);
    assert (lines + [line])[..|lines|] == lines;
    forall a | a in after
      ensures after[a] == Mentions(lines + [line], a)
    {
      UnnamedHasNoMentions(lines, a);
    }
  }

  /** `b` is listed under `a` exactly as often as `a` is listed under `b`: links are undirected,
      repeated lines included. */
  lemma {:induction false} MentionsSymmetric(lines: seq<seq<string>>, a: Name, b: Name)
    requires LinesComplete(lines)
    ensures multiset(Mentions(lines, a))[b] == multiset(Mentions(lines, b))[a]
  {
    if lines != [] {
      var init, last := lines[..|lines| - 1], lines[|lines| - 1];
      MentionsSymmetric(init, a, b);
      LineSymmetric(last, a, b);
      CountConcat(Mentions(init, a), LineNeighbors(last, a), b);
      CountConcat(Mentions(init, b), LineNeighbors(last, b), a);
    }
  }

  lemma MentionedBack(lines: seq<seq<string>>, a: Name, b: Name)
    requires LinesComplete(lines) && b in Mentions(lines, a)
    ensures a in Mentions(lines, b)
  {
    hide Mentions;
    MentionsSymmetric(lines, a, b);
    assert b in multiset(Mentions(lines, a));
    assert a in multiset(Mentions(lines, b));
  }

  lemma LineSymmetric(line: seq<string>, a: Name, b: Name)
    requires |line| >= 2
    ensures multiset(LineNeighbors(line, a))[b] == multiset(LineNeighbors(line, b))[a]
  {
  }

  lemma CountConcat(s: seq<Name>, t: seq<Name>, x: Name)
    ensures multiset(s + t)[x] == multiset(s)[x] + multiset(t)[x]
  {
  }

  lemma {:induction false} MentionsNamed(lines: seq<seq<string>>, a: Name)
    requires LinesComplete(lines)
    ensures forall b | b in Mentions(lines, a) :: b in Named(lines)
    ensures a in Named(lines) ==> Mentions(lines, a) != []
  {
    if lines != [] {
      var init, last := lines[..|lines| - 1], lines[|lines| - 1];
      assert lines == init + [last];
      NamedSnoc(init, last);
      MentionsNamed(init, a);
    }
  }

  /** What the rest of the generator relies on: the topology read from any file is an undirected graph
      over its own nodes, and nobody announces an empty neighbour list. */
  lemma TopologyWellFormed(lines: seq<seq<string>>, links: Links)
    requires Describes(lines, links)
    ensures Closed(links) && Symmetric(links)
    ensures forall a | a in links :: links[a] != []
  {
    hide Mentions, Named;
    forall a, b | a in links && b in links[a]
      ensures b in links && a in links[b]
    {
      MentionsNamed(lines, a);
      MentionedBack(lines, a, b);
    }
    forall a | a in links
      ensures links[a] != []
    {
      MentionsNamed(lines, a);
    }
  }
}
