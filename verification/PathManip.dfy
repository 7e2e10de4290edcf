// normalize_path scans a path from its end, counting the parts that a later ".." takes back; a resolver that goes
// forward with a stack says what it has to find.
module PathManip {
  import opened Options

  // ---- The parts of a path ----

  // The text between slashes; before the slash an absolute path starts with there is an empty part.
  function Split(path: string): (parts: seq<string>)
    ensures parts != []
  {
    if path == "" then [""]
    else
      var more := Split(path[1..]);
      if path[0] == '/' then [""] + more else [[path[0]] + more[0]] + more[1..]
  }

  // ---- The resolver ----

  // No part, or the part for the directory itself.
  predicate StaysHere(part: string) {
    part == "" || part == "."
  }

  // None where ".." leaves the root.
  function Resolve(parts: seq<string>, stack: seq<string>): Option<seq<string>>
    decreases |parts|
  {
    if parts == [] then Some(stack)
    else if StaysHere(parts[0]) then Resolve(parts[1..], stack)
    else if parts[0] != ".." then Resolve(parts[1..], stack + [parts[0]])
    else if stack == [] then None
    else Resolve(parts[1..], stack[..|stack| - 1])
  }

  function Slashed(parts: seq<string>): string {
    if parts == [] then "" else "/" + parts[0] + Slashed(parts[1..])
  }

  // The absolute path with these parts.
  function Rendered(parts: seq<string>): string {
    if parts == [] then "/" else Slashed(parts)
  }

  // The relative one.
  function Joined(parts: seq<string>): string {
    if parts == [] then "" else parts[0] + Slashed(parts[1..])
  }

  // ---- The backward scan ----

  predicate Ignored(part: string) {
    part == "" || part == "."
  }

  // pieces have their slash in front, but for one that starts the path.
  datatype Scan = Scan(pieces: seq<string>, skip: nat)

  function Take(part: string, head: bool, s: Scan): Scan {
    if Ignored(part) then s
    else if part == ".." then s.(skip := s.skip + 1)
    else if s.skip > 0 then s.(skip := s.skip - 1)
    else s.(pieces := [if head then part else "/" + part] + s.pieces)
  }

  // What the scan has found when it has passed all these parts; head if the first of them starts the path.
  function Back(parts: seq<string>, head: bool): Scan
    decreases |parts|
  {
    if parts == [] then Scan([], 0) else Take(parts[0], head, Back(parts[1..], false))
  }

  function Concat(pieces: seq<string>): string {
    if pieces == [] then "" else pieces[0] + Concat(pieces[1..])
  }

  function Normalized(path: string): Option<string> {
    var s := Back(Split(path), true);
    if s.skip != 0 then None
    else Some(if Concat(s.pieces) == "" && path != "" && path[0] == '/' then "/" else Concat(s.pieces))
  }

  // ---- The scan finds what the resolver finds ----

  // The parts that survive the scan.
  function Kept(parts: seq<string>): Scan
    decreases |parts|
  {
    if parts == [] then Scan([], 0)
    else
      var s := Kept(parts[1..]);
      if Ignored(parts[0]) then s
      else if parts[0] == ".." then s.(skip := s.skip + 1)
      else if s.skip > 0 then s.(skip := s.skip - 1)
      else s.(pieces := [parts[0]] + s.pieces)
  }

  // The skip counter is how far the parts reach below where they start.
  lemma {:induction false} KeptIsResolved(parts: seq<string>, stack: seq<string>)
    ensures var s := Kept(parts);
      Resolve(parts, stack) == if |stack| < s.skip then None else Some(stack[..|stack| - s.skip] + s.pieces)
    decreases |parts|
  {
    if parts == [] {
      assert stack[..|stack|] + [] == stack;
    } else {
      var p, s := parts[0], Kept(parts[1..]);
      if Ignored(p) {
        KeptIsResolved(parts[1..], stack);
      } else if p != ".." {
        KeptIsResolved(parts[1..], stack + [p]);
        OnePushed(stack, p, s);
      } else if stack != [] {
        KeptIsResolved(parts[1..], stack[..|stack| - 1]);
        OnePopped(stack, s.skip);
      }
    }
  }

  lemma OnePushed(stack: seq<string>, p: string, s: Scan)
    ensures s.skip == 0 ==> (stack + [p])[..|stack| + 1] + s.pieces == stack[..|stack|] + ([p] + s.pieces)
    ensures 0 < s.skip <= |stack| + 1 ==> (stack + [p])[..|stack| + 1 - s.skip] == stack[..|stack| - (s.skip - 1)]
  {
  }

  lemma OnePopped(stack: seq<string>, skip: nat)
    requires stack != []
    ensures skip <= |stack| - 1 ==> stack[..|stack| - 1][..|stack| - 1 - skip] == stack[..|stack| - (skip + 1)]
  {
  }

  lemma {:induction false} BackIsKept(parts: seq<string>)
    ensures Back(parts, false).skip == Kept(parts).skip && Concat(Back(parts, false).pieces) == Slashed(Kept(parts).pieces)
    decreases |parts|
  {
    if parts != [] {
      BackIsKept(parts[1..]);
      var s := Back(parts[1..], false);
      assert (["/" + parts[0]] + s.pieces)[1..] == s.pieces;
      assert ([parts[0]] + Kept(parts[1..]).pieces)[1..] == Kept(parts[1..]).pieces;
    }
  }

  predicate Absolute(path: string) {
    path != "" && path[0] == '/'
  }

  // An absolute path is refused exactly when it leaves the root, and otherwise becomes the path of the stack that is left.
  lemma AbsoluteIsResolved(path: string)
    requires Absolute(path)
    ensures Normalized(path) == match Resolve(Split(path), []) case None => None case Some(parts) => Some(Rendered(parts))
  {
    var parts := Split(path);
    assert parts[0] == "";
    KeptIsResolved(parts, []);
    BackIsKept(parts[1..]);
    assert Back(parts, true) == Back(parts[1..], false) && Kept(parts) == Kept(parts[1..]);
    var s := Kept(parts);
    assert s.skip == 0 ==> [][..0] + s.pieces == s.pieces;
  }

  // ---- Normalizing twice ----

  predicate Plain(part: string) {
    '/' !in part && !StaysHere(part) && part != ".."
  }

  predicate AllPlain(parts: seq<string>) {
    forall i :: 0 <= i < |parts| ==> Plain(parts[i])
  }

  lemma {:induction false} PartsHaveNoSlash(path: string)
    ensures forall i :: 0 <= i < |Split(path)| ==> '/' !in Split(path)[i]
    decreases |path|
  {
    if path != "" {
      PartsHaveNoSlash(path[1..]);
    }
  }

  lemma {:induction false} KeptArePlain(parts: seq<string>)
    requires forall i :: 0 <= i < |parts| ==> '/' !in parts[i]
    ensures AllPlain(Kept(parts).pieces)
    decreases |parts|
  {
    if parts != [] {
      KeptArePlain(parts[1..]);
    }
  }

  lemma {:induction false} SplitSum(part: string, rest: string)
    requires '/' !in part
    ensures Split(part + "/" + rest) == [part] + Split(rest) && Split(part) == [part]
    decreases |part|
  {
    if part == "" {
      assert part + "/" + rest == "/" + rest;
      assert ("/" + rest)[1..] == rest;
    } else {
      SplitSum(part[1..], rest);
      assert (part + "/" + rest)[1..] == part[1..] + "/" + rest;
      assert [part[0]] + part[1..] == part;
    }
  }

  lemma {:induction false} SplitSlashed(part: string, parts: seq<string>)
    requires '/' !in part && AllPlain(parts)
    ensures Split(part + Slashed(parts)) == [part] + parts
    decreases |parts|
  {
    if parts == [] {
      assert part + Slashed(parts) == part;
      SplitSum(part, "");
    } else {
      SplitSlashed(parts[0], parts[1..]);
      assert part + Slashed(parts) == part + "/" + (parts[0] + Slashed(parts[1..]));
      SplitSum(part, parts[0] + Slashed(parts[1..]));
      assert [parts[0]] + parts[1..] == parts;
    }
  }

  lemma {:induction false} PlainStay(parts: seq<string>)
    requires AllPlain(parts)
    ensures Kept(parts) == Scan(parts, 0)
    decreases |parts|
  {
    if parts != [] {
      PlainStay(parts[1..]);
      assert [parts[0]] + parts[1..] == parts;
    }
  }

  // The result is a path without any part that normalizing would drop; normalizing it again changes nothing.
  lemma NormalizedIsStable(path: string)
    requires Absolute(path) && Normalized(path).Some?
    ensures var q := Normalized(path).value; Absolute(q) && Normalized(q) == Some(q)
  {
    AbsoluteIsResolved(path);
    KeptIsResolved(Split(path), []);
    PartsHaveNoSlash(path);
    KeptArePlain(Split(path));
    var parts := Kept(Split(path)).pieces;
    assert [][..0] + parts == parts;
    var q := Normalized(path).value;
    assert q == Rendered(parts);
    AbsoluteIsResolved(q);
    if parts == [] {
      assert Split("/") == ["", ""] by {
        assert "/"[1..] == "";
      }
      KeptIsResolved(["", ""], []);
      assert ["", ""][1..] == [""] && [""][1..] == [];
    } else {
      SplitSlashed("", parts);
      assert "" + Slashed(parts) == Slashed(parts);
      assert ([""] + parts)[1..] == parts;
      PlainStay(parts);
      KeptIsResolved([""] + parts, []);
    }
  }

  // ---- Relative paths ----

  // The first part is dropped, or what follows it goes back beyond where it begins.
  predicate FirstGoes(parts: seq<string>)
    requires parts != []
  {
    StaysHere(parts[0]) || parts[0] == ".." || Resolve(parts[1..], []).None?
  }

  // A relative path becomes the relative path of its parts exactly when its first part stays or no part does;
  // otherwise it gets a slash in front.
  lemma RelativeIsResolved(path: string)
    requires path != "" && path[0] != '/'
    ensures match Resolve(Split(path), [])
      case None => Normalized(path) == None
      case Some(parts) =>
        Normalized(path) == Some(if FirstGoes(Split(path)) then Slashed(parts) else Joined(parts))
        && (Normalized(path) == Some(Joined(parts)) <==> parts == [] || !FirstGoes(Split(path)))
  {
    var parts := Split(path);
    KeptIsResolved(parts, []);
    KeptIsResolved(parts[1..], []);
    BackIsKept(parts[1..]);
    PartsHaveNoSlash(path);
    KeptArePlain(parts);
    var s, k := Back(parts[1..], false), Kept(parts);
    assert k.skip == 0 ==> [][..0] + k.pieces == k.pieces;
    if !FirstGoes(parts) {
      assert ([parts[0]] + s.pieces)[1..] == s.pieces;
      assert k.pieces == [parts[0]] + Kept(parts[1..]).pieces;
      assert k.pieces[1..] == Kept(parts[1..]).pieces;
    } else if k.pieces != [] {
      assert Plain(k.pieces[0]);
      assert Slashed(k.pieces)[0] == '/' && k.pieces[0][0] != '/';
      assert Joined(k.pieces)[0] == k.pieces[0][0];
    }
  }

  // ---- The loop ----

  // rfind('/', end - 1)
  method LastSlash(path: string, end: nat) returns (found: bool, at: nat)
    requires 0 < end <= |path|
    ensures found ==> at < end && path[at] == '/' && '/' !in path[at + 1..end]
    ensures !found ==> '/' !in path[..end]
  {
    at := end - 1;
    while path[at] != '/'
      invariant at < end && '/' !in path[at + 1..end]
      decreases at
    {
      if at == 0 {
        assert path[..end] == [path[0]] + path[1..end];
        return false, 0;
      }
      assert path[at..end] == [path[at]] + path[at + 1..end];
      at := at - 1;
    }
    found := true;
  }

  lemma {:induction false} SplitLast(front: string, last: string)
    requires '/' !in last
    ensures Split(front + "/" + last) == Split(front) + [last]
    decreases |front|
  {
    if front == "" {
      SplitSum("", last);
      SplitSum(last, "");
      assert "" + "/" + last == front + "/" + last;
    } else {
      SplitLast(front[1..], last);
      assert (front + "/" + last)[1..] == front[1..] + "/" + last;
    }
  }

  lemma Regroup(a: seq<string>, b: string, c: seq<string>)
    ensures a + [b] + c == a + ([b] + c)
  {
  }

  lemma CutAt(path: string, end: nat, at: nat)
    requires at < end <= |path| && path[at] == '/'
    ensures path[..end] == path[..at] + "/" + path[at + 1..end]
    ensures path[at..end] == "/" + path[at + 1..end]
  {
  }

  // One more part in front of those already passed.
  lemma PartPassed(whole: seq<string>, front: string, part: string, passed: seq<string>)
    requires '/' !in part && whole == Split(front + "/" + part) + passed
    ensures whole == Split(front) + ([part] + passed)
  {
    SplitLast(front, part);
    Regroup(Split(front), part, passed);
  }

  // The tests on a part by its length and characters.
  lemma PartTests(path: string, a: nat, b: nat)
    requires a <= b <= |path|
    ensures Ignored(path[a..b]) <==> b - a == 0 || (b - a == 1 && path[a] == '.')
    ensures path[a..b] == ".." <==> b - a == 2 && path[a] == '.' && path[a + 1] == '.'
  {
    var part := path[a..b];
    assert |part| == b - a;
    assert b - a == 1 ==> part == [path[a]];
    assert b - a == 2 ==> part == [path[a], path[a + 1]];
  }

  lemma {:induction false} ConcatSum(a: seq<string>, b: string)
    ensures Concat(a + [b]) == Concat(a) + b
    decreases |a|
  {
    if a == [] {
      assert a + [b] == [b] && [b][1..] == [];
    } else {
      ConcatSum(a[1..], b);
      assert (a + [b])[1..] == a[1..] + [b];
    }
  }

  // The loop that joins the parts left.
  method Append(resultParts: seq<string>) returns (result: string)
    ensures result == Concat(resultParts)
  {
    result := "";
    for i := 0 to |resultParts|
      invariant result == Concat(resultParts[..i])
    {
      ConcatSum(resultParts[..i], resultParts[i]);
      assert resultParts[..i + 1] == resultParts[..i] + [resultParts[i]];
      result := result + resultParts[i];
    }
    assert resultParts[..|resultParts|] == resultParts;
  }

  // The last part starts at partStart, its piece at start.
  function TakePiece(path: string, start: nat, partStart: nat, end: nat, s: Scan): Scan
    requires start <= partStart <= end <= |path|
  {
    if end - partStart != 0 && (end - partStart != 1 || path[partStart] != '.') then
      if end - partStart == 2 && path[partStart] == '.' && path[partStart + 1] == '.' then s.(skip := s.skip + 1)
      else if s.skip > 0 then s.(skip := s.skip - 1)
      else s.(pieces := [path[start..end]] + s.pieces)
    else s
  }

  lemma PieceTaken(path: string, found: bool, start: nat, end: nat, s: Scan)
    requires start < end <= |path| && (found ==> path[start] == '/') && (!found ==> start == 0)
    ensures var partStart := if found then start + 1 else 0;
      TakePiece(path, start, partStart, end, s) == Take(path[partStart..end], !found, s)
  {
    PartTests(path, if found then start + 1 else 0, end);
    if found {
      CutAt(path, end, start);
    }
  }

  // parts are those of path[..end] and the ones passed, unless the scan has come to the start of a relative path.
  ghost predicate Passing(path: string, end: nat, parts: seq<string>, passed: seq<string>, head: bool, s: Scan) {
    && end <= |path| && s == Back(passed, head)
    && parts == (if head then passed else Split(path[..end]) + passed)
  }

  lemma StartsPassing(path: string)
    requires path != ""
    ensures if path[|path| - 1] == '/' then Passing(path, |path| - 1, Split(path), [""], false, Scan([], 0))
      else Passing(path, |path|, Split(path), [], false, Scan([], 0))
  {
    if path[|path| - 1] == '/' {
      var front := path[..|path| - 1];
      SplitLast(front, "");
      assert path == front + "/" + "";
      assert [""][1..] == [];
    } else {
      assert path[..|path|] == path;
    }
  }

  lemma GoesOnPassing(path: string, end: nat, parts: seq<string>, passed: seq<string>, s: Scan, found: bool, start: nat)
    requires Passing(path, end, parts, passed, false, s) && start < end
    requires found ==> path[start] == '/' && '/' !in path[start + 1..end]
    requires !found ==> start == 0 && '/' !in path[..end]
    ensures var partStart := if found then start + 1 else 0;
      Passing(path, start, parts, [path[partStart..end]] + passed, !found, Take(path[partStart..end], !found, s))
  {
    var part := path[if found then start + 1 else 0..end];
    assert ([part] + passed)[1..] == passed;
    if found {
      CutAt(path, end, start);
      PartPassed(parts, path[..start], part, passed);
    } else {
      assert path[..end] == part;
      SplitSum(part, "");
    }
  }

  lemma AllPassed(path: string, parts: seq<string>, passed: seq<string>, head: bool, s: Scan)
    requires Passing(path, 0, parts, passed, head, s)
    ensures Back(parts, true) == s
  {
    if !head {
      assert path[..0] == "" && ([""] + passed)[1..] == passed;
    }
  }

  // The loop; endPos starts behind the last part.
  method ScanParts(path: string, end: nat, ghost parts: seq<string>, ghost before: seq<string>)
    returns (skipParts: nat, resultParts: seq<string>)
    requires Passing(path, end, parts, before, false, Scan([], 0))
    ensures Scan(resultParts, skipParts) == Back(parts, true)
  {
    var endPos: nat := end;
    skipParts, resultParts := 0, [];
    ghost var passed, head := before, false;
    while endPos != 0
      invariant head ==> endPos == 0
      invariant Passing(path, endPos, parts, passed, head, Scan(resultParts, skipParts))
    {
      var found, startPos := LastSlash(path, endPos);
      var partStartPos := startPos + 1;
      if !found {
        partStartPos, startPos := 0, 0;
      }
      ghost var was := Scan(resultParts, skipParts);
      if endPos - partStartPos != 0 && (endPos - partStartPos != 1 || path[partStartPos] != '.') {
        if endPos - partStartPos == 2 && path[partStartPos] == '.' && path[partStartPos + 1] == '.' {
          skipParts := skipParts + 1;
        } else if skipParts > 0 {
          skipParts := skipParts - 1;
        } else {
          resultParts := [path[startPos..endPos]] + resultParts;
        }
      }
      assert Scan(resultParts, skipParts) == TakePiece(path, startPos, partStartPos, endPos, was);
      PieceTaken(path, found, startPos, endPos, was);
      GoesOnPassing(path, endPos, parts, passed, was, found, startPos);
      passed, head := [path[partStartPos..endPos]] + passed, !found;
      endPos := startPos;
    }
    AllPassed(path, parts, passed, head, Scan(resultParts, skipParts));
  }

  method NormalizePath(path: string) returns (ok: bool, res: string)
    ensures ok <==> Normalized(path).Some?
    ensures res == if ok then Normalized(path).value else path
  {
    if path == "" || path == "/" {
      assert "/"[1..] == "" && Split("/") == ["", ""] && ["", ""][1..] == [""] && [""][1..] == [];
      return true, path;
    }
    StartsPassing(path);
    var endPos: nat := |path| - (if path[|path| - 1] == '/' then 1 else 0);
    var skipParts, resultParts := ScanParts(path, endPos, Split(path), if endPos == |path| then [] else [""]);
    if skipParts != 0 {
      return false, path;
    }
    var result := Append(resultParts);
    if result == "" && path[0] == '/' {
      result := "/";
    }
    return true, result;
  }
}
