/**
 * The watch list: the comma-separated `TARGET_PRODUCTS` setting turned into a
 * list of product names (main.py:265) and then into the lower-cased set the
 * monitor matches against (main.py:149). An empty set means "watch every product".
 */
module Targets {
  import opened Text

  const Separator: char := ','

  /** Keeps `p.strip()` for every piece whose stripped form is non-empty, in order. */
  function Clean(pieces: seq<string>): (r: seq<string>)
    ensures |r| <= |pieces|
    ensures forall i :: 0 <= i < |r| ==> r[i] != [] && IsStripped(r[i])
  {
    if pieces == [] then []
    else
      var t := Strip(pieces[0]);
      if t == [] then Clean(pieces[1..]) else [t] + Clean(pieces[1..])
  }

  /** The kept names are exactly the non-empty stripped pieces. */
  lemma {:induction false} CleanMembers(pieces: seq<string>, t: string)
    ensures t in Clean(pieces) <==> t != [] && exists p :: p in pieces && Strip(p) == t
  {
    if pieces != [] {
      CleanMembers(pieces[1..], t);
      if t != [] && Strip(pieces[0]) != t && exists p :: p in pieces && Strip(p) == t {
        var p :| p in pieces && Strip(p) == t;
        assert p in pieces[1..];
      }
    }
  }

  /** A stripped slice of a piece without separators has no separator either. */
  lemma StripKeepsNoSeparator(p: string)
    requires Separator !in p
    ensures Separator !in Strip(p)
  {
    var i, j :| StripsTo(p, Strip(p), i, j);
    forall k | 0 <= k < |Strip(p)|
      ensures Strip(p)[k] != Separator
    {
      assert Strip(p)[k] == p[i + k];
    }
  }

  /**
   * `[p.strip() for p in s.split(',') if p.strip()]`: every name is non-empty,
   * has no surrounding whitespace and no comma, and the names are exactly the
   * non-blank comma-separated pieces of the setting, stripped.
   */
  function ParseTargets(config: string): (names: seq<string>)
    ensures forall i :: 0 <= i < |names| ==> names[i] != [] && IsStripped(names[i]) && Separator !in names[i]
    ensures forall t :: t in names <==> t != [] && exists p :: p in Split(config, Separator) && Strip(p) == t
  {
    var pieces := Split(config, Separator);
    forall p | p in pieces
      ensures Separator !in Strip(p)
    {
      StripKeepsNoSeparator(p);
    }
    var names := Clean(pieces);
    forall t
      ensures t in names <==> t != [] && exists p :: p in pieces && Strip(p) == t
    {
      CleanMembers(pieces, t);
    }
    forall i | 0 <= i < |names|
      ensures Separator !in names[i]
    {
      assert names[i] in names;
      var p :| p in pieces && Strip(p) == names[i];
    }
    names
  }

  /** `{p.lower() for p in names}`: the set the monitor compares lower-cased product names with. */
  function TargetSet(names: seq<string>): (ts: set<string>)
    ensures forall t :: t in ts ==> IsLowerCase(t)
    ensures forall i :: 0 <= i < |names| ==> Lower(names[i]) in ts
    ensures forall t :: t in ts ==> exists i :: 0 <= i < |names| && Lower(names[i]) == t
  {
    set i | 0 <= i < |names| :: Lower(names[i])
  }

  /** The watch list as the monitor sees it, straight from the configuration string. */
  function Targets(config: string): (ts: set<string>)
    ensures forall t :: t in ts ==> t != [] && IsLowerCase(t) && IsStripped(t) && Separator !in t
    ensures forall t :: t in ts <==>
      exists p :: p in Split(config, Separator) && Strip(p) != [] && Lower(Strip(p)) == t
  {
    var pieces := Split(config, Separator);
    var names := ParseTargets(config);
    var ts := TargetSet(names);
    forall i | 0 <= i < |names|
      ensures IsStripped(Lower(names[i])) && Separator !in Lower(names[i])
    {
      LowerKeepsStripped(names[i]);
      LowerKeepsNoSeparator(names[i]);
    }
    forall t | t in ts
      ensures exists p :: p in pieces && Strip(p) != [] && Lower(Strip(p)) == t
    {
      var i :| 0 <= i < |names| && Lower(names[i]) == t;
      assert names[i] in names;
      var p :| p in pieces && Strip(p) == names[i];
    }
    forall p | p in pieces && Strip(p) != []
      ensures Lower(Strip(p)) in ts
    {
      assert Strip(p) in names;
      var i :| 0 <= i < |names| && names[i] == Strip(p);
    }
    ts
  }

  /** Lower-casing never introduces a comma. */
  lemma LowerKeepsNoSeparator(s: string)
    requires Separator !in s
    ensures Separator !in Lower(s)
  {
    forall k | 0 <= k < |s|
      ensures Lower(s)[k] != Separator
    {
      assert s[k] != Separator;
    }
  }

  /** A setting made only of commas and whitespace (the empty string included) watches every product. */
  lemma BlankConfigWatchesAll(config: string)
    requires forall k :: 0 <= k < |config| ==> config[k] == Separator || IsSpace(config[k])
    ensures Targets(config) == {}
  {
    var pieces := Split(config, Separator);
    JoinSplit(config, Separator);
    forall p | p in pieces
      ensures Strip(p) == []
    {
      BlankPiece(pieces, p);
      StripEmptyIffBlank(p);
    }
  }

  /** Every character of a piece of a blank setting is whitespace. */
  lemma BlankPiece(pieces: seq<string>, p: string)
    requires |pieces| >= 1
    requires p in pieces
    requires forall i :: 0 <= i < |pieces| ==> Separator !in pieces[i]
    requires forall k :: 0 <= k < |Join(pieces, Separator)| ==> Join(pieces, Separator)[k] == Separator || IsSpace(Join(pieces, Separator)[k])
    ensures forall k :: 0 <= k < |p| ==> IsSpace(p[k])
    decreases |pieces|
  {
    var j := Join(pieces, Separator);
    if p == pieces[0] {
      forall k | 0 <= k < |p|
        ensures IsSpace(p[k])
      {
        assert j[k] == p[k];
        assert p[k] != Separator;
      }
    } else {
      var rest := Join(pieces[1..], Separator);
      assert j == pieces[0] + [Separator] + rest;
      forall k | 0 <= k < |rest|
        ensures rest[k] == Separator || IsSpace(rest[k])
      {
        assert rest[k] == j[|pieces[0]| + 1 + k];
      }
      BlankPiece(pieces[1..], p);
    }
  }
}
