/** Identifiers of neon_compiler/ast/identifiers.hpp: the parts of a possibly
    qualified name, written in source code with `::` between them. */
module Identifiers {

  /** `main::subpkg` has the parts "main" and "subpkg"; `my_variable` has one. */
  datatype Identifier = Identifier(parts: seq<string>)
  {
    /** `to_string`: the parts with `::` between consecutive ones. */
    method ToString() returns (s: string)
      ensures s == Join(parts)
      ensures parts == [] ==> s == ""
      ensures |parts| == 1 ==> s == parts[0]
    {
      s := "";
      var first := true;
      for i := 0 to |parts|
        invariant first <==> i == 0
        invariant s == Join(parts[..i])
      {
        if first {
          first := false;
        } else {
          s := s + "::";
        }
        JoinSnoc(parts[..i], parts[i]);
        assert parts[..i + 1] == parts[..i] + [parts[i]];
        s := s + parts[i];
      }
      assert parts[..|parts|] == parts;
    }
  }

  /** The parts joined with one `::` between consecutive parts. */
  function Join(parts: seq<string>): string
  {
    if parts == [] then ""
    else if |parts| == 1 then parts[0]
    else parts[0] + "::" + Join(parts[1..])
  }

  /** Joining one part more appends the separator and that part. */
  lemma {:induction false} JoinSnoc(parts: seq<string>, p: string)
    ensures Join(parts + [p]) == if parts == [] then p else Join(parts) + "::" + p
    decreases |parts|
  {
    if |parts| > 1 {
      assert (parts + [p])[1..] == parts[1..] + [p];
      JoinSnoc(parts[1..], p);
    } else if |parts| == 1 {
      assert (parts + [p])[1..] == [p];
    }
  }

  /** The total length of the parts. */
  function TotalLength(parts: seq<string>): nat
  {
    if parts == [] then 0 else |parts[0]| + TotalLength(parts[1..])
  }

  /** The joined text is as long as the parts together, plus two characters for
      each of the `|parts| - 1` separators. */
  lemma {:induction false} JoinLength(parts: seq<string>)
    requires parts != []
    ensures |Join(parts)| == TotalLength(parts) + 2 * (|parts| - 1)
    decreases |parts|
  {
    if |parts| > 1 {
      JoinLength(parts[1..]);
    }
  }

  /** The joined text opens with the first part and closes with the last, so it
      has no leading and no trailing separator of its own. */
  lemma {:induction false} JoinEnds(parts: seq<string>)
    requires parts != []
    ensures |parts[0]| <= |Join(parts)| && Join(parts)[..|parts[0]|] == parts[0]
    ensures |parts[|parts| - 1]| <= |Join(parts)|
    ensures Join(parts)[|Join(parts)| - |parts[|parts| - 1]|..] == parts[|parts| - 1]
    decreases |parts|
  {
    if |parts| > 1 {
      JoinEnds(parts[1..]);
      var rest := Join(parts[1..]);
      assert Join(parts) == parts[0] + "::" + rest;
      assert Join(parts)[|Join(parts)| - |rest|..] == rest;
    }
  }

  /** `["main", "subpkg"]` is written `main::subpkg` (identifiers.hpp:15-16). */
  lemma JoinExample()
    ensures Join(["main", "subpkg"]) == "main::subpkg"
  {
    assert ["main", "subpkg"][1..] == ["subpkg"];
  }

  /** The text `s` cut at each `::`, scanning from the left. */
  function Split(s: string): (ps: seq<string>)
    ensures ps != []
    decreases |s|
  {
    if |s| < 2 then [s]
    else if s[0] == ':' && s[1] == ':' then [""] + Split(s[2..])
    else
      var ps := Split(s[1..]);
      [[s[0]] + ps[0]] + ps[1..]
  }

  /** Text without ':' is not cut. */
  lemma {:induction false} SplitWithoutColon(p: string)
    requires ':' !in p
    ensures Split(p) == [p]
    decreases |p|
  {
    if |p| >= 2 {
      assert ':' !in p[1..];
      SplitWithoutColon(p[1..]);
      assert [p[0]] + p[1..] == p;
    }
  }

  /** A part without ':' followed by `::` is cut off as the first piece. */
  lemma {:induction false} SplitAfterPart(p: string, t: string)
    requires ':' !in p
    ensures Split(p + "::" + t) == [p] + Split(t)
    decreases |p|
  {
    var s := p + "::" + t;
    if p == [] {
      assert s == "::" + t && s[2..] == t;
    } else {
      assert s[1..] == p[1..] + "::" + t;
      assert ':' !in p[1..];
      SplitAfterPart(p[1..], t);
      assert [p[0]] + p[1..] == p;
    }
  }

  /** Cutting the joined text at each `::` gives back the parts, when there is
      at least one part and no part holds a ':'. */
  lemma {:induction false} SplitJoin(parts: seq<string>)
    requires parts != []
    requires forall j :: 0 <= j < |parts| ==> ':' !in parts[j]
    ensures Split(Join(parts)) == parts
    decreases |parts|
  {
    if |parts| == 1 {
      SplitWithoutColon(parts[0]);
    } else {
      SplitAfterPart(parts[0], Join(parts[1..]));
      SplitJoin(parts[1..]);
      assert [parts[0]] + parts[1..] == parts;
    }
  }
}
