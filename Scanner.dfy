/**
 * The scanning loop shared by Python's `re.sub`, `re.findall` and
 * `re.search`, for patterns that never match the empty string.
 *
 * A pattern is given by its matcher: applied to the remainder of the text,
 * it says whether the pattern matches at its very start, how many
 * characters that match covers, and what its groups (or its replacement)
 * are.  Every scan tries positions left to right; `sub` and `findall`
 * resume right after each match, so matches never overlap.
 */
module Scanner {
  import opened Wrappers

  /** A match at the start of a text: its length and its groups. */
  datatype Found<T> = Found(len: nat, groups: T)

  /** A match found while scanning: where it starts, its length and its groups. */
  datatype Hit<T> = Hit(start: nat, len: nat, groups: T)

  /** A matcher only reports non-empty matches that lie inside the text. */
  ghost predicate Consumes<T>(at: string -> Option<Found<T>>) {
    forall t :: at(t).Some? ==> 0 < at(t).value.len <= |t|
  }

  /**
   * `re.sub`: every leftmost match is replaced by the text the matcher
   * gives for it; characters where nothing matches are copied.
   */
  function Sub(s: string, at: string -> Option<Found<string>>): string
    requires Consumes(at)
    decreases |s|
  {
    if s == [] then []
    else match at(s)
      case Some(f) => f.groups + Sub(s[f.len..], at)
      case None => [s[0]] + Sub(s[1..], at)
  }

  /** A stretch where no match starts is copied unchanged. */
  lemma {:induction false} SubCopies(x: string, y: string, at: string -> Option<Found<string>>)
    requires Consumes(at)
    requires forall i :: 0 <= i < |x| ==> at(x[i..] + y).None?
    ensures Sub(x + y, at) == x + Sub(y, at)
    decreases |x|
  {
    if x != [] {
      assert x[0..] + y == x + y;
      assert (x + y)[1..] == x[1..] + y;
      assert Sub(x + y, at) == [x[0]] + Sub(x[1..] + y, at);
      forall i | 0 <= i < |x[1..]|
        ensures at(x[1..][i..] + y).None?
      {
        assert x[1..][i..] == x[i + 1..];
      }
      SubCopies(x[1..], y, at);
      assert [x[0]] + (x[1..] + Sub(y, at)) == x + Sub(y, at);
    } else {
      assert x + y == y;
      assert x + Sub(y, at) == Sub(y, at);
    }
  }

  /** A text where no match starts is left as it is. */
  lemma SubIdentity(s: string, at: string -> Option<Found<string>>)
    requires Consumes(at)
    requires forall i :: 0 <= i < |s| ==> at(s[i..]).None?
    ensures Sub(s, at) == s
  {
    forall i | 0 <= i < |s|
      ensures at(s[i..] + []).None?
    {
      assert s[i..] + [] == s[i..];
    }
    SubCopies(s, [], at);
    assert s + [] == s;
  }

  /** A match at the start is replaced and scanning resumes after it. */
  lemma SubAfterMatch(x: string, y: string, r: string, at: string -> Option<Found<string>>)
    requires Consumes(at)
    requires at(x + y) == Some(Found(|x|, r))
    ensures Sub(x + y, at) == r + Sub(y, at)
  {
    assert (x + y)[|x|..] == y;
  }

  /**
   * A property of characters holds throughout the output when it holds of
   * every copied character and of every replacement.
   */
  lemma {:induction false} SubKeeps(s: string, at: string -> Option<Found<string>>, P: char -> bool)
    requires Consumes(at)
    requires forall i :: 0 <= i < |s| && at(s[i..]).None? ==> P(s[i])
    requires forall i :: 0 <= i < |s| && at(s[i..]).Some? ==> forall c :: c in at(s[i..]).value.groups ==> P(c)
    ensures forall c :: c in Sub(s, at) ==> P(c)
    decreases |s|
  {
    if s != [] {
      assert s[0..] == s;
      var k := if at(s).Some? then at(s).value.len else 1;
      forall i | 0 <= i < |s[k..]|
        ensures s[k..][i..] == s[k + i..]
      {
      }
      SubKeeps(s[k..], at, P);
    }
  }

  /**
   * `re.finditer` from position `pos`: the leftmost match at or after
   * `pos`, then the matches after it.
   */
  function FindAllFrom<T>(s: string, pos: nat, at: string -> Option<Found<T>>): seq<Hit<T>>
    requires pos <= |s| && Consumes(at)
    decreases |s| - pos
  {
    if pos == |s| then []
    else match at(s[pos..])
      case Some(f) => [Hit(pos, f.len, f.groups)] + FindAllFrom(s, pos + f.len, at)
      case None => FindAllFrom(s, pos + 1, at)
  }

  /** Every reported match is a match of the pattern, at or after `pos`, inside the text. */
  lemma {:induction false} FindAllSound<T>(s: string, pos: nat, at: string -> Option<Found<T>>)
    requires pos <= |s| && Consumes(at)
    ensures forall h :: h in FindAllFrom(s, pos, at) ==>
      pos <= h.start && h.start + h.len <= |s| && at(s[h.start..]) == Some(Found(h.len, h.groups))
    decreases |s| - pos
  {
    if pos < |s| {
      match at(s[pos..])
      case Some(f) =>
        FindAllSound(s, pos + f.len, at);
      case None =>
        FindAllSound(s, pos + 1, at);
    }
  }

  /** The reported matches come in order of position and do not overlap. */
  lemma {:induction false} FindAllOrdered<T>(s: string, pos: nat, at: string -> Option<Found<T>>)
    requires pos <= |s| && Consumes(at)
    ensures forall i, j :: 0 <= i < j < |FindAllFrom(s, pos, at)| ==>
      FindAllFrom(s, pos, at)[i].start + FindAllFrom(s, pos, at)[i].len <= FindAllFrom(s, pos, at)[j].start
    decreases |s| - pos
  {
    if pos < |s| {
      match at(s[pos..])
      case Some(f) =>
        var rest := FindAllFrom(s, pos + f.len, at);
        FindAllOrdered(s, pos + f.len, at);
        FindAllSound(s, pos + f.len, at);
        assert forall j :: 0 <= j < |rest| ==> rest[j] in rest;
      case None =>
        FindAllOrdered(s, pos + 1, at);
    }
  }

  /** Position `p` lies inside the match `h`. */
  predicate Inside<T>(h: Hit<T>, p: nat) {
    h.start <= p < h.start + h.len
  }

  /**
   * Leftmost scanning misses nothing: every position from `pos` on where
   * the pattern matches is either a reported match or lies inside one.
   */
  lemma {:induction false} FindAllCovers<T>(s: string, pos: nat, at: string -> Option<Found<T>>, p: nat)
    requires pos <= p < |s| && Consumes(at)
    requires at(s[p..]).Some?
    ensures exists i :: 0 <= i < |FindAllFrom(s, pos, at)| && Inside(FindAllFrom(s, pos, at)[i], p)
    decreases |s| - pos
  {
    var hits := FindAllFrom(s, pos, at);
    match at(s[pos..])
    case Some(f) =>
      if p < pos + f.len {
        assert Inside(hits[0], p);
      } else {
        FindAllCovers(s, pos + f.len, at, p);
        var rest := FindAllFrom(s, pos + f.len, at);
        var i :| 0 <= i < |rest| && Inside(rest[i], p);
        assert hits[i + 1] == rest[i];
      }
    case None =>
      assert p != pos;
      FindAllCovers(s, pos + 1, at, p);
  }

  /** The groups of the matches, in order: `re.findall`. */
  function Groups<T>(hits: seq<Hit<T>>): (r: seq<T>)
    ensures |r| == |hits|
  {
    if hits == [] then [] else [hits[0].groups] + Groups(hits[1..])
  }

  /** Every reported group is the group of one of the matches. */
  lemma {:induction false} GroupsMember<T>(hits: seq<Hit<T>>, g: T) returns (i: nat)
    requires g in Groups(hits)
    ensures i < |hits| && hits[i].groups == g
  {
    if hits[0].groups != g {
      assert g in Groups(hits[1..]);
      var j := GroupsMember(hits[1..], g);
      i := j + 1;
    } else {
      i := 0;
    }
  }

  /** `re.findall`: the groups of all leftmost, non-overlapping matches. */
  function FindAll<T>(s: string, at: string -> Option<Found<T>>): seq<T>
    requires Consumes(at)
    decreases |s|
  {
    if s == [] then []
    else match at(s)
      case Some(f) => [f.groups] + FindAll(s[f.len..], at)
      case None => FindAll(s[1..], at)
  }

  /** The scan by positions reports the groups `re.findall` returns for the rest of the text. */
  lemma {:induction false} FindAllFromGroups<T>(s: string, pos: nat, at: string -> Option<Found<T>>)
    requires pos <= |s| && Consumes(at)
    ensures Groups(FindAllFrom(s, pos, at)) == FindAll(s[pos..], at)
    decreases |s| - pos, 1
  {
    if pos == |s| {
      assert s[pos..] == [];
    } else if at(s[pos..]).Some? {
      FindAllFromGroupsHit(s, pos, at);
    } else {
      FindAllFromGroupsMiss(s, pos, at);
    }
  }

  lemma {:induction false} FindAllFromGroupsHit<T>(s: string, pos: nat, at: string -> Option<Found<T>>)
    requires pos < |s| && Consumes(at) && at(s[pos..]).Some?
    ensures Groups(FindAllFrom(s, pos, at)) == FindAll(s[pos..], at)
    decreases |s| - pos, 0
  {
    var t := s[pos..];
    var f := at(t).value;
    assert t[f.len..] == s[pos + f.len..];
    UnfoldMatch(s, pos, at, f);
    FindAllFromGroups(s, pos + f.len, at);
  }

  lemma {:induction false} FindAllFromGroupsMiss<T>(s: string, pos: nat, at: string -> Option<Found<T>>)
    requires pos < |s| && Consumes(at) && at(s[pos..]).None?
    ensures Groups(FindAllFrom(s, pos, at)) == FindAll(s[pos..], at)
    decreases |s| - pos, 0
  {
    var t := s[pos..];
    assert t[1..] == s[pos + 1..];
    UnfoldMiss(s, pos, at);
    FindAllFromGroups(s, pos + 1, at);
  }

  /** One step of the scan when the pattern matches at `p`. */
  lemma UnfoldMatch<T>(s: string, p: nat, at: string -> Option<Found<T>>, f: Found<T>)
    requires p < |s| && Consumes(at)
    requires at(s[p..]) == Some(f)
    ensures p + f.len <= |s|
    ensures Groups(FindAllFrom(s, p, at)) == [f.groups] + Groups(FindAllFrom(s, p + f.len, at))
  {
    var a := FindAllFrom(s, p + f.len, at);
    assert FindAllFrom(s, p, at) == [Hit(p, f.len, f.groups)] + a;
    GroupsCons(Hit(p, f.len, f.groups), a);
  }

  /** One step of the scan when the pattern does not match at `p`. */
  lemma UnfoldMiss<T>(s: string, p: nat, at: string -> Option<Found<T>>)
    requires p < |s| && Consumes(at)
    requires at(s[p..]).None?
    ensures FindAllFrom(s, p, at) == FindAllFrom(s, p + 1, at)
  {
  }

  lemma GroupsCons<T>(h: Hit<T>, hits: seq<Hit<T>>)
    ensures Groups([h] + hits) == [h.groups] + Groups(hits)
  {
    assert ([h] + hits)[1..] == hits;
  }

  /** A match at the start is reported first, then scanning resumes after it. */
  lemma FindAllAfterMatch<T>(x: string, y: string, g: T, at: string -> Option<Found<T>>)
    requires Consumes(at)
    requires at(x + y) == Some(Found(|x|, g))
    ensures FindAll(x + y, at) == [g] + FindAll(y, at)
  {
    var s := x + y;
    assert s != [];
    assert s[|x|..] == y;
  }

  /** A stretch where no match starts contributes nothing. */
  lemma {:induction false} FindAllSkips<T>(x: string, y: string, at: string -> Option<Found<T>>)
    requires Consumes(at)
    requires forall i :: 0 <= i < |x| ==> at(x[i..] + y).None?
    ensures FindAll(x + y, at) == FindAll(y, at)
    decreases |x|
  {
    if x != [] {
      var s := x + y;
      assert x[0..] == x;
      assert s[1..] == x[1..] + y;
      forall i | 0 <= i < |x[1..]|
        ensures at(x[1..][i..] + y).None?
      {
        assert x[1..][i..] == x[i + 1..];
      }
      FindAllSkips(x[1..], y, at);
    } else {
      assert x + y == y;
    }
  }

  /** `re.findall` finds nothing exactly when the pattern matches nowhere. */
  lemma FindAllEmptyIff<T>(s: string, at: string -> Option<Found<T>>)
    requires Consumes(at)
    ensures FindAll(s, at) == [] <==> forall p :: 0 <= p < |s| ==> at(s[p..]).None?
  {
    FindAllFromGroups(s, 0, at);
    assert s[0..] == s;
    if FindAll(s, at) == [] {
      forall p | 0 <= p < |s|
        ensures at(s[p..]).None?
      {
        if at(s[p..]).Some? {
          FindAllCovers(s, 0, at, p);
        }
      }
    } else {
      FindAllSound(s, 0, at);
      var h := FindAllFrom(s, 0, at)[0];
      assert h in FindAllFrom(s, 0, at);
      assert at(s[h.start..]).Some?;
    }
  }

  /**
   * `re.search` from position `pos`: the first position at which the
   * pattern matches.
   */
  function SearchFrom<T>(s: string, pos: nat, at: string -> Option<Found<T>>): (r: Option<Hit<T>>)
    requires pos <= |s|
    ensures r.Some? ==> pos <= r.value.start <= |s| && at(s[r.value.start..]) == Some(Found(r.value.len, r.value.groups))
    ensures r.Some? ==> forall p {:trigger at(s[p..])} :: pos <= p < r.value.start ==> at(s[p..]).None?
    ensures r.None? ==> forall p {:trigger at(s[p..])} :: pos <= p <= |s| ==> at(s[p..]).None?
    decreases |s| - pos
  {
    match at(s[pos..])
    case Some(f) => Some(Hit(pos, f.len, f.groups))
    case None => if pos == |s| then None else SearchFrom(s, pos + 1, at)
  }

  /** `re.search`: the leftmost match anywhere in `s`, if there is one. */
  function Search<T>(s: string, at: string -> Option<Found<T>>): Option<Hit<T>>
  {
    SearchFrom(s, 0, at)
  }
}
