/** Paths as values: splitting at slashes, and the printers it undoes. */
module PathText {
  const FILE_MAX_PATH := 100

  /** A C string: no character in it is the terminator. */
  predicate NulFree(s: string) {
    '\0' !in s
  }

  /** The number of characters before the first slash. */
  function SlashIndex(t: string): (i: nat)
    ensures i <= |t| && '/' !in t[..i]
    ensures i < |t| ==> t[i] == '/'
  {
    if t == [] || t[0] == '/' then 0 else 1 + SlashIndex(t[1..])
  }

  lemma {:induction false} SlashIndexFrom(t: string, i: nat)
    requires i <= |t|
    ensures SlashIndex(t[i..]) == if i == |t| || t[i] == '/' then 0 else 1 + SlashIndex(t[i + 1..])
  {
  }

  /** The first slash, or the end, is where the characters before it are no slashes. */
  lemma {:induction false} SlashIndexIs(t: string, i: nat)
    requires i <= |t| && '/' !in t[..i] && (i < |t| ==> t[i] == '/')
    ensures SlashIndex(t) == i
  {
    if i > 0 {
      assert t[1..][..i - 1] == t[1..i] && t[0] == t[..i][0];
      SlashIndexIs(t[1..], i - 1);
    }
  }

  function Head(t: string): string {
    t[..SlashIndex(t)]
  }

  /** What follows the first slash. */
  function Rest(t: string): (r: string)
    ensures t != [] ==> |r| < |t|
  {
    if SlashIndex(t) < |t| then t[SlashIndex(t) + 1..] else []
  }

  /** The parts of a path behind the drive: an ending slash adds none, a doubled one adds an
      empty part. */
  function Split(t: string): seq<string>
    decreases |t|
  {
    if t == [] then [] else [Head(t)] + Split(Rest(t))
  }

  /** Every part followed by a slash. */
  function Print(parts: seq<string>): string {
    if parts == [] then [] else parts[0] + "/" + Print(parts[1..])
  }

  /** The parts with a slash between them. */
  function Join(parts: seq<string>): string {
    if parts == [] then []
    else if |parts| == 1 then parts[0]
    else parts[0] + "/" + Join(parts[1..])
  }

  predicate EndsWithSlash(t: string) {
    t != [] && t[|t| - 1] == '/'
  }

  lemma {:induction false} HeadAndRest(t: string)
    requires t != []
    ensures SlashIndex(t) < |t| ==> t == Head(t) + "/" + Rest(t)
    ensures SlashIndex(t) == |t| ==> t == Head(t) && Rest(t) == []
    ensures Rest(t) != [] ==> SlashIndex(t) < |t| && (EndsWithSlash(Rest(t)) <==> EndsWithSlash(t))
    ensures Rest(t) == [] ==> (EndsWithSlash(t) <==> SlashIndex(t) < |t|)
  {
  }

  /** Printing what splitting gave restores the text, with a final slash if it lacked one. */
  lemma {:induction false} PrintOfSplit(t: string)
    requires t != []
    ensures Print(Split(t)) == if EndsWithSlash(t) then t else t + "/"
    decreases |t|
  {
    HeadAndRest(t);
    var parts := Split(t);
    assert parts[0] == Head(t) && parts[1..] == Split(Rest(t));
    if Rest(t) != [] {
      PrintOfSplit(Rest(t));
    }
  }

  lemma {:induction false} SlashIndexOfPart(part: string, t: string)
    requires '/' !in part && (t == [] || t[0] == '/')
    ensures SlashIndex(part + t) == |part|
  {
    if part == [] {
      assert part + t == t;
    } else {
      assert (part + t)[1..] == part[1..] + t;
      SlashIndexOfPart(part[1..], t);
    }
  }

  lemma {:induction false} HeadAndRestAt(t: string, part: string, tail: string)
    requires t == part + ("/" + tail) && SlashIndex(t) == |part|
    ensures Head(t) == part && Rest(t) == tail
  {
  }

  /** Splitting undoes joining, for parts without slashes of which the last is not empty. */
  lemma {:induction false} SplitOfJoin(parts: seq<string>)
    requires parts != [] && parts[|parts| - 1] != []
    requires forall i :: 0 <= i < |parts| ==> '/' !in parts[i]
    ensures Join(parts) != [] && Split(Join(parts)) == parts
  {
    var t := Join(parts);
    if |parts| == 1 {
      assert t + [] == t;
      SlashIndexOfPart(t, []);
    } else {
      var tail := Join(parts[1..]);
      SplitOfJoin(parts[1..]);
      assert t == parts[0] + ("/" + tail);
      SlashIndexOfPart(parts[0], "/" + tail);
      HeadAndRestAt(t, parts[0], tail);
      assert [parts[0]] + parts[1..] == parts;
    }
  }

  /** The parts have no slash in them, and a text that does not end in a slash is its parts
      joined. */
  lemma {:induction false} JoinOfSplit(t: string)
    requires t != []
    ensures forall i :: 0 <= i < |Split(t)| ==> '/' !in Split(t)[i]
    ensures !EndsWithSlash(t) ==> Join(Split(t)) == t
    decreases |t|
  {
    HeadAndRest(t);
    var parts := Split(t);
    assert parts[0] == Head(t) && parts[1..] == Split(Rest(t));
    if Rest(t) != [] {
      JoinOfSplit(Rest(t));
      assert Split(Rest(t)) != [];
    }
  }

  predicate IsDigit(c: char) {
    '0' <= c <= '9'
  }

  /** The paths that parser_parse accepts: a digit, colon and slash, and at least one more
      character. */
  predicate Accepted(path: string) {
    4 <= |path| <= FILE_MAX_PATH && IsDigit(path[0]) && path[1] == ':' && path[2] == '/'
  }
}

module PathParser {
  import opened PathText

  class PathPart {
    var path: string
    var next: PathPart?

    constructor (path: string)
      ensures this.path == path && next == null
    {
      this.path, next := path, null;
    }
  }

  class PathRoot {
    var driveNum: int
    var first: PathPart?

    /** parser_create_root */
    constructor (driveNum: int)
      ensures this.driveNum == driveNum && first == null
    {
      this.driveNum, first := driveNum, null;
    }
  }

  /** The nodes form the list that starts at first, and hold the parts in order. */
  ghost predicate IsList(first: PathPart?, nodes: seq<PathPart>, parts: seq<string>)
    reads nodes
  {
    && |nodes| == |parts|
    && (forall i :: 0 <= i < |nodes| ==> nodes[i].path == parts[i])
    && (forall i, j :: 0 <= i < j < |nodes| && j == i + 1 ==> nodes[i].next == nodes[j])
    && if |nodes| == 0 then first == null else first == nodes[0] && nodes[|nodes| - 1].next == null
  }

  /** path_valid and parser_get_drive_by_path: the drive, or -1 for a path that is not valid. */
  function DriveOf(path: string): int {
    if |path| >= 3 && IsDigit(path[0]) && path[1] == ':' && path[2] == '/'
    then path[0] as int - 48 else -1
  }

  /** The loop of parser_get_path_part: the characters up to a slash or the end. The part fits in
      its buffer of FILE_MAX_PATH bytes. */
  method CopyPart(path: string, pos: nat) returns (part: string, i: nat)
    requires pos <= |path| < pos + FILE_MAX_PATH
    ensures i == SlashIndex(path[pos..]) && pos + i <= |path| && part == path[pos..pos + i]
  {
    var resPath := new char[FILE_MAX_PATH](_ => '\0');
    i := 0;
    while pos + i < |path| && path[pos + i] != '/'
      invariant pos + i <= |path|
      invariant forall k :: 0 <= k < i ==> resPath[k] == path[pos + k]
      invariant forall k :: 0 <= k < i ==> resPath[k] != '/'
    {
      resPath[i] := path[pos + i];
      i := i + 1;
    }
    part := resPath[..i];
    assert part == path[pos..][..i];
    SlashIndexIs(path[pos..], i);
  }

  /** parser_get_path_part: the part at the cursor and the cursor after it, or nothing at the end. */
  method GetPathPart(path: string, pos: nat) returns (part: string, found: bool, pos': nat)
    requires NulFree(path) && pos <= |path| < pos + FILE_MAX_PATH
    ensures found <==> path[pos..] != []
    ensures pos' <= |path| && (found ==> part == Head(path[pos..]) && path[pos'..] == Rest(path[pos..]))
    ensures if found then pos < pos' else pos == pos'
  {
    var i;
    part, i := CopyPart(path, pos);
    SlashIndexFrom(path, pos);
    if pos + i < |path| {
      i := i + 1;
    }
    pos' := pos + i;
    found := i != 0;
  }

  /** parse_path_part: a node for the part at the cursor, linked behind last. */
  method ParsePathPart(last: PathPart?, path: string, pos: nat) returns (part: PathPart?, pos': nat)
    requires NulFree(path) && pos <= |path| < pos + FILE_MAX_PATH
    modifies if last == null then {} else {last}
    ensures part == null <==> path[pos..] == []
    ensures part == null ==> pos' == pos
    ensures part != null ==> fresh(part) && part.path == Head(path[pos..]) && part.next == null
    ensures part != null ==> pos < pos' <= |path| && path[pos'..] == Rest(path[pos..])
    ensures last != null ==> last.path == old(last.path) && last.next == if part == null then old(last.next) else part
  {
    var str, found;
    str, found, pos' := GetPathPart(path, pos);
    part := null;
    if found {
      part := new PathPart(str);
      if last != null {
        last.next := part;
      }
    }
  }

  lemma {:induction false} SplitStep(parts: seq<string>, tail: string)
    requires tail != []
    ensures parts + Split(tail) == parts + [Head(tail)] + Split(Rest(tail))
  {
  }

  /** One turn of the loop of parser_parse: the list grows by the part at the cursor. */
  method AppendPart(first: PathPart, last: PathPart, path: string, pos: nat,
                    ghost nodes: seq<PathPart>, ghost parts: seq<string>)
    returns (part: PathPart?, pos': nat)
    requires NulFree(path) && pos <= |path| < pos + FILE_MAX_PATH
    requires IsList(first, nodes, parts) && nodes != [] && last == nodes[|nodes| - 1]
    modifies last
    ensures part == null ==> path[pos..] == [] && pos' == pos && IsList(first, nodes, parts)
    ensures part != null ==> fresh(part) && path[pos..] != [] && pos < pos' <= |path|
    ensures part != null ==> IsList(first, nodes + [part], parts + [Head(path[pos..])])
    ensures part != null ==> path[pos'..] == Rest(path[pos..])
  {
    forall i | 0 <= i < |nodes| - 1
      ensures nodes[i] != last
    {
      var next: PathPart := nodes[i + 1];
      assert nodes[i].next == next;
    }
    part, pos' := ParsePathPart(last, path, pos);
    if part != null {
      ghost var nodes' := nodes + [part];
      assert forall i :: 0 <= i < |nodes| ==> nodes'[i] == nodes[i] && nodes[i].path == parts[i];
      assert nodes'[|nodes|] == part == last.next;
    }
  }

  /** The parts behind the drive, as a list, or null if there is none. */
  method ParseParts(path: string, start: nat) returns (first: PathPart?, ghost nodes: seq<PathPart>)
    requires NulFree(path) && start <= |path| < start + FILE_MAX_PATH
    ensures first == null <==> path[start..] == []
    ensures IsList(first, nodes, Split(path[start..]))
  {
    nodes := [];
    var pos;
    first, pos := ParsePathPart(null, path, start);
    if first == null {
      return;
    }
    ghost var parts, tail := [first.path], path[pos..];
    nodes := [first];
    assert parts + Split(tail) == Split(path[start..]);
    var part;
    part, pos := AppendPart(first, first, path, pos, nodes, parts);
    while part != null
      invariant start <= pos <= |path| && parts + Split(tail) == Split(path[start..])
      invariant nodes != [] && IsList(first, if part == null then nodes else nodes + [part],
                                      if part == null then parts else parts + [Head(tail)])
      invariant if part == null then tail == []
                else fresh(part) && tail != [] && path[pos..] == Rest(tail)
      decreases part != null, |path| - pos
    {
      SplitStep(parts, tail);
      nodes, parts, tail := nodes + [part], parts + [Head(tail)], Rest(tail);
      part, pos := AppendPart(first, part, path, pos, nodes, parts);
    }
    assert parts + [] == parts;
  }

  lemma {:induction false} AcceptedForm(path: string)
    ensures Accepted(path)
       <==> 4 <= |path| <= 100 && path[0] in "0123456789" && path[1..3] == ":/"
    ensures Accepted(path) ==> 0 <= DriveOf(path) <= 9 && "0123456789"[DriveOf(path)] == path[0]
  {
    if 4 <= |path| {
      assert path[1..3] == [path[1], path[2]];
    }
  }

  /** parser_parse: the drive and the list of parts of every accepted path, and nothing for any
      other. nodes are the nodes of the list. */
  method Parse(path: string) returns (root: PathRoot?, ghost nodes: seq<PathPart>)
    requires NulFree(path)
    ensures root != null <==> Accepted(path)
    ensures root != null <==> 4 <= |path| <= 100 && path[0] in "0123456789" && path[1..3] == ":/"
    ensures root != null ==>
              && 0 <= root.driveNum <= 9 && "0123456789"[root.driveNum] == path[0]
              && fresh(root) && IsList(root.first, nodes, Split(path[3..]))
  {
    AcceptedForm(path);
    root, nodes := null, [];
    if |path| > FILE_MAX_PATH {
      return;
    }
    var drive := DriveOf(path);
    if drive < 0 {
      return;
    }
    var r := new PathRoot(drive);
    var first;
    first, nodes := ParseParts(path, 3);
    if first == null {
      return;
    }
    r.first := first;
    root := r;
  }

  /** Parsing undoes writing a path: any drive digit followed by parts joined with slashes comes
      back as that drive and those parts. */
  lemma {:induction false} ParseOfJoin(drive: char, parts: seq<string>)
    requires IsDigit(drive) && parts != [] && parts[|parts| - 1] != []
    requires forall i :: 0 <= i < |parts| ==> '/' !in parts[i] && NulFree(parts[i])
    requires 3 + |Join(parts)| <= FILE_MAX_PATH
    ensures var path := [drive] + ":/" + Join(parts);
            NulFree(path) && Accepted(path) && path[0] == drive && Split(path[3..]) == parts
  {
    SplitOfJoin(parts);
    JoinNulFree(parts);
    assert ([drive] + ":/" + Join(parts))[3..] == Join(parts);
  }

  lemma {:induction false} JoinNulFree(parts: seq<string>)
    requires forall i :: 0 <= i < |parts| ==> NulFree(parts[i])
    ensures NulFree(Join(parts))
  {
    if |parts| > 1 {
      JoinNulFree(parts[1..]);
    }
  }
}
