/**
 Chat messages flattened into one prompt and restored from it.
 */
module Messages {
  import opened Options
  import opened Text

  datatype Message = Message(role: string, content: string)

  function Marker(): (r: string)
    ensures |r| == 27 && r[0] == '<' && '\n' !in r
  {
    "<<<PGQN_MESSAGE_BOUNDARY>>>"
  }

  /** messages.go, messageBoundary. */
  function Boundary(): (r: string)
    ensures |r| == 29 && r[0] == '\n' && r[1..28] == Marker() && r[28] == '\n'
  {
    hide Marker;
    "\n" + Marker() + "\n"
  }

  // ---- Joining and splitting ----

  function RoleOf(m: Message): string {
    var role := TrimSpace(m.role);
    if role == "" then "user" else role
  }

  /** One message as it stands in the prompt. */
  function Chunk(m: Message): string {
    RoleOf(m) + "\n" + m.content
  }

  /** `strings.Join` of the chunks. */
  function JoinChunks(ms: seq<Message>): string {
    if ms == [] then ""
    else if |ms| == 1 then Chunk(ms[0])
    else Chunk(ms[0]) + Boundary() + JoinChunks(ms[1..])
  }

  function Flatten(ms: seq<Message>): string {
    if ms == [] then "" else if |ms| == 1 then ms[0].content else JoinChunks(ms)
  }

  predicate OccursAt(s: string, i: nat) {
    i + |Boundary()| <= |s| && s[i..i + |Boundary()|] == Boundary()
  }

  /** `strings.Index`: the first occurrence of the boundary. */
  function IndexOf(s: string, i: nat): (r: Option<nat>)
    requires i <= |s|
    ensures r.Some? ==> i <= r.value && OccursAt(s, r.value) && forall k :: i <= k < r.value ==> !OccursAt(s, k)
    ensures r.None? ==> forall k :: i <= k ==> !OccursAt(s, k)
    decreases |s| - i
  {
    if OccursAt(s, i) then Some(i) else if i == |s| then None else IndexOf(s, i + 1)
  }

  /** `strings.Split` on the boundary. */
  function Split(s: string): seq<string>
    decreases |s|
  {
    match IndexOf(s, 0)
    case None => [s]
    case Some(i) => [s[..i]] + Split(s[i + |Boundary()|..])
  }

  predicate HasBoundary(s: string) {
    IndexOf(s, 0).Some?
  }

  // ---- Parsing ----

  predicate IsRole(s: string) {
    s == "system" || s == "user" || s == "assistant"
  }

  /** `strings.IndexByte(s, '\n')`. */
  function LineBreak(s: string): (r: Option<nat>)
    ensures r.Some? ==> r.value < |s| && s[r.value] == '\n' && forall k :: 0 <= k < r.value ==> s[k] != '\n'
    ensures r.None? ==> forall k :: 0 <= k < |s| ==> s[k] != '\n'
  {
    if s == [] then None
    else if s[0] == '\n' then Some(0)
    else if LineBreak(s[1..]).Some? then Some(LineBreak(s[1..]).value + 1)
    else
      assert forall k :: 0 < k < |s| ==> s[k] == s[1..][k - 1];
      None
  }

  /** The message of one non-empty trimmed chunk. */
  function ParseTrimmed(chunk: string): Message {
    match LineBreak(chunk)
    case None => Message("user", chunk)
    case Some(i) =>
      if i > 0 && IsRole(Lower(TrimSpace(chunk[..i]))) then
        Message(Lower(TrimSpace(chunk[..i])), TrimSpace(chunk[i + 1..]))
      else Message("user", chunk)
  }

  function ParseChunks(chunks: seq<string>): seq<Message> {
    if chunks == [] then []
    else
      var chunk := TrimSpace(chunks[0]);
      (if chunk == "" then [] else [ParseTrimmed(chunk)]) + ParseChunks(chunks[1..])
  }

  /** messages.go, PromptToChatMessages. */
  function Restore(prompt: string): seq<Message> {
    var p := TrimSpace(prompt);
    if p == "" then []
    else if !HasBoundary(p) then [Message("user", p)]
    else
      var out := ParseChunks(Split(p));
      if out == [] then [Message("user", p)] else out
  }

  // ---- The small cases ----

  /** One message is its content alone, and none is the empty prompt; a message without a role is the user's. */
  lemma FlattenFew(m: Message)
    ensures Flatten([]) == "" && Flatten([m]) == m.content
    ensures TrimSpace(m.role) == "" ==> RoleOf(m) == "user"
  {
  }

  /** A prompt without a boundary is one message of the user, and an empty one is none. */
  lemma RestorePlain(p: string)
    requires Trimmed(p) && forall i :: 0 <= i <= |p| ==> !OccursAt(p, i)
    ensures Restore(p) == if p == "" then [] else [Message("user", p)]
  {
    TrimSpaceOfTrimmed(p);
  }

  lemma BoundaryText()
    ensures Boundary() == "\n<<<PGQN_MESSAGE_BOUNDARY>>>\n"
  {
  }

  /** A chunk whose first line names no role is a message of the user, with that line as part of it. */
  lemma UnknownRoleStays(line: string, rest: string)
    requires '\n' !in line && Lower(TrimSpace(line)) !in {"system", "user", "assistant"}
    ensures ParseTrimmed(line + "\n" + rest) == Message("user", line + "\n" + rest)
  {
    FirstLine(line, rest);
  }

  /** And one whose first line names a role, in any case and with any space around it, is of that role. */
  lemma KnownRoleTaken(line: string, rest: string)
    requires line != "" && '\n' !in line && Lower(TrimSpace(line)) in {"system", "user", "assistant"}
    ensures ParseTrimmed(line + "\n" + rest) == Message(Lower(TrimSpace(line)), TrimSpace(rest))
  {
    FirstLine(line, rest);
  }

  lemma FirstLine(line: string, rest: string)
    requires '\n' !in line
    ensures var chunk := line + "\n" + rest;
            LineBreak(chunk) == Some(|line|) && chunk[..|line|] == line && chunk[|line| + 1..] == rest
  {
    var chunk := line + "\n" + rest;
    assert chunk[|line|] == '\n' && forall k :: 0 <= k < |line| ==> chunk[k] == line[k] && line[k] in line;
  }

  // ---- The messages the round trip is about ----

  /** A valid lower-case role and a non-empty content without surrounding space. */
  predicate WellFormed(m: Message) {
    IsRole(m.role) && m.content != "" && Trimmed(m.content)
  }

  /** A content together with the line breaks around it. */
  function Around(m: Message, last: bool): string {
    "\n" + m.content + if last then "" else "\n"
  }

  /** The content makes no boundary together with the line breaks that surround it in the prompt. */
  predicate Clean(m: Message, last: bool) {
    !HasBoundary(Around(m, last))
  }

  predicate AllClean(ms: seq<Message>) {
    forall i :: 0 <= i < |ms| ==> Clean(ms[i], i == |ms| - 1)
  }

  // ---- Occurrences ----

  lemma BoundaryShape(s: string, i: nat)
    requires OccursAt(s, i)
    ensures s[i] == '\n' && s[i + 28] == '\n' && s[i + 1..i + 28] == Marker()
    ensures s[i + 1] == '<' && forall k :: i < k < i + 28 ==> s[k] != '\n'
  {
    hide Boundary, Marker;
    var b := Boundary();
    forall k | 0 <= k < 29 ensures s[i + k] == b[k] {
      assert s[i..i + |b|][k] == b[k];
    }
    forall k | 0 <= k < 27 ensures s[i + 1 + k] == Marker()[k] {
      assert b[1..28][k] == b[1 + k];
    }
    assert s[i + 1] == s[i + 1..i + 28][0];
    forall k | i < k < i + 28 ensures s[k] != '\n' {
      assert s[i + 1 + (k - i - 1)] == Marker()[k - i - 1];
    }
  }

  lemma OccursInSlice(s: string, a: nat, b: nat, i: nat)
    requires a <= i <= b <= |s|
    ensures OccursAt(s[a..b], i - a) <==> OccursAt(s, i) && i + |Boundary()| <= b
  {
    hide Boundary;
    if i + |Boundary()| <= b {
      SliceOfSlice(s, a, b, i, i + |Boundary()|);
    }
  }

  lemma SliceOfSlice(s: string, a: nat, b: nat, i: nat, j: nat)
    requires a <= i <= j <= b <= |s|
    ensures s[a..b][i - a..j - a] == s[i..j]
  {
    forall k | 0 <= k < j - i ensures s[a..b][i - a..j - a][k] == s[i..j][k] {
      assert s[a..b][i - a + k] == s[i + k];
    }
  }

  /** What the proofs use about a role. */
  predicate IsWord(s: string) {
    s != "" && forall k :: 0 <= k < |s| ==> 'a' <= s[k] <= 'z'
  }

  lemma RoleIsWord(role: string)
    requires IsRole(role)
    ensures IsWord(role)
  {
    SystemIsWord();
    UserIsWord();
    AssistantIsWord();
  }

  lemma SystemIsWord()
    ensures IsWord("system")
  {
  }

  lemma UserIsWord()
    ensures IsWord("user")
  {
  }

  lemma AssistantIsWord()
    ensures IsWord("assistant")
  {
  }

  lemma WordFacts(s: string)
    requires IsWord(s)
    ensures Trimmed(s) && TrimSpace(s) == s && Lower(s) == s && '\n' !in s && s[0] != '<'
  {
    hide TrimSpace;
    TrimSpaceOfTrimmed(s);
  }

  /** A chunk is its role, a line break and its content, none of them padded. */
  lemma ChunkOf(m: Message)
    requires WellFormed(m)
    ensures IsWord(m.role) && Chunk(m) == m.role + "\n" + m.content
    ensures Trimmed(Chunk(m)) && TrimSpace(Chunk(m)) == Chunk(m)
  {
    hide IsRole, TrimSpace, IsSpace, Lower;
    RoleIsWord(m.role);
    WordFacts(m.role);
    var c := Chunk(m);
    assert c[0] == m.role[0] && c[|c| - 1] == m.content[|m.content| - 1];
    TrimSpaceOfTrimmed(c);
  }

  /** What follows a chunk in the prompt. */
  predicate Follows(rest: string, last: bool) {
    if last then rest == "" else Boundary() <= rest
  }

  lemma AroundInPrompt(m: Message, last: bool, rest: string)
    requires WellFormed(m) && Follows(rest, last)
    ensures var s, r := Chunk(m) + rest, |m.role|;
            r + |Around(m, last)| <= |s| && s[r..r + |Around(m, last)|] == Around(m, last)
    ensures !last ==> OccursAt(Chunk(m) + rest, |Chunk(m)|)
  {
    hide Boundary, Chunk, WellFormed, TrimSpace, Trimmed, IsWord;
    ChunkOf(m);
    var n, r := |Chunk(m)|, |m.role|;
    var s := Chunk(m) + rest;
    if !last {
      assert s[n..n + |Boundary()|] == rest[..|Boundary()|] == Boundary();
      assert s[n] == '\n';
    }
  }

  /**
   No spurious boundary arises where chunks meet: before its end a chunk holds an occurrence
   exactly when its content is not clean, however the prompt goes on.
   */
  lemma EarlyOccurrence(m: Message, last: bool, rest: string)
    requires WellFormed(m) && Follows(rest, last)
    ensures !Clean(m, last) <==> exists i: nat :: i < |Chunk(m)| && OccursAt(Chunk(m) + rest, i)
    ensures !last ==> OccursAt(Chunk(m) + rest, |Chunk(m)|)
  {
    hide Boundary, Marker, Chunk, WellFormed, TrimSpace, Trimmed, IsWord, OccursAt;
    AroundInPrompt(m, last, rest);
    ChunkOf(m);
    var s, r := Chunk(m) + rest, |m.role|;
    var end := r + |Around(m, last)|;
    assert s[r..end] == Around(m, last);
    if !Clean(m, last) {
      var j := IndexOf(Around(m, last), 0).value;
      OccursFits(Around(m, last), j);
      OccursInSlice(s, r, end, r + j);
      assert r + j < |Chunk(m)|;
    }
    if exists i: nat :: i < |Chunk(m)| && OccursAt(s, i) {
      var i: nat :| i < |Chunk(m)| && OccursAt(s, i);
      OccurrenceInside(m, last, rest, i);
      OccursInSlice(s, r, end, i);
      assert OccursAt(Around(m, last), i - r);
    }
  }

  lemma OccursFits(s: string, i: nat)
    requires OccursAt(s, i)
    ensures i + 29 <= |s|
  {
    hide Boundary;
  }

  /** An occurrence that starts in a chunk starts behind the role and ends with the line break behind the content. */
  lemma OccurrenceInside(m: Message, last: bool, rest: string, i: nat)
    requires WellFormed(m) && Follows(rest, last) && i < |Chunk(m)| && OccursAt(Chunk(m) + rest, i)
    ensures |m.role| <= i && i + |Boundary()| <= |m.role| + |Around(m, last)|
  {
    hide Boundary, Marker, Chunk, WellFormed, TrimSpace, Trimmed, OccursAt;
    ChunkOf(m);
    var s, n := Chunk(m) + rest, |Chunk(m)|;
    BoundaryShape(s, i);
    OccursFits(s, i);
    assert s[i] == Chunk(m)[i];
    assert forall k :: 0 <= k < |m.role| ==> s[k] == m.role[k];
    assert !last ==> s[n] == rest[0] == '\n';
  }

  // ---- One chunk ----

  lemma ParseOfChunk(m: Message)
    requires WellFormed(m)
    ensures ParseTrimmed(Chunk(m)) == m
  {
    hide Chunk, TrimSpace, IsRole, IsWord, Trimmed;
    ChunkOf(m);
    WordFacts(m.role);
    BreakBehindRole(m.role, Chunk(m));
    var c, r := Chunk(m), |m.role|;
    assert c[..r] == m.role && c[r + 1..] == m.content;
    TrimSpaceOfTrimmed(m.content);
    assert r > 0 by { NonemptyWord(m.role); }
  }

  lemma NonemptyWord(s: string)
    requires IsWord(s)
    ensures |s| > 0
  {
  }

  lemma BreakBehindRole(role: string, c: string)
    requires IsWord(role) && |role| < |c| && role <= c && c[|role|] == '\n'
    ensures LineBreak(c) == Some(|role|)
  {
    hide LineBreak;
    assert forall k :: 0 <= k < |role| ==> c[k] == role[k];
  }

  lemma SplitClean(m: Message, rest: string)
    requires WellFormed(m) && Clean(m, false) && Boundary() <= rest
    ensures Split(Chunk(m) + rest) == [Chunk(m)] + Split(rest[|Boundary()|..])
  {
    hide Chunk;
    var s := Chunk(m) + rest;
    EarlyOccurrence(m, false, rest);
    assert IndexOf(s, 0) == Some(|Chunk(m)|);
    assert s[..|Chunk(m)|] == Chunk(m);
    assert s[|Chunk(m)| + |Boundary()|..] == rest[|Boundary()|..];
  }

  /** The piece a boundary inside a chunk cuts off: it starts with the role and loses part of the content. */
  lemma CutChunk(m: Message, last: bool, rest: string)
    requires WellFormed(m) && Follows(rest, last) && !Clean(m, last)
    ensures var pieces := Split(Chunk(m) + rest);
            |pieces| > 0 && TrimSpace(pieces[0]) != "" && ParseTrimmed(TrimSpace(pieces[0])) != m
  {
    EarlyOccurrence(m, last, rest);
    var s := Chunk(m) + rest;
    var i := IndexOf(s, 0).value;
    var early: nat :| early < |Chunk(m)| && OccursAt(s, early);
    assert i <= early;
    CutPiece(m, s, i);
  }

  lemma CutPiece(m: Message, s: string, i: nat)
    requires WellFormed(m) && Chunk(m) <= s && i < |Chunk(m)| && OccursAt(s, i)
    ensures TrimSpace(s[..i]) != "" && ParseTrimmed(TrimSpace(s[..i])) != m
  {
    hide Boundary, Marker, Chunk, WellFormed, TrimSpace, Trimmed, OccursAt, ParseTrimmed;
    ChunkOf(m);
    BoundaryShape(s, i);
    assert s[i] == Chunk(m)[i];
    assert forall k :: 0 <= k < |m.role| ==> s[k] == m.role[k];
    if i == |m.role| {
      RoleAlone(m, s);
    } else {
      PartOfContent(m, s, i);
    }
  }

  /** Only the role is left: it becomes the content, while the real content starts with the marker. */
  lemma RoleAlone(m: Message, s: string)
    requires WellFormed(m) && Chunk(m) <= s && OccursAt(s, |m.role|)
    ensures TrimSpace(s[..|m.role|]) != "" && ParseTrimmed(TrimSpace(s[..|m.role|])) != m
  {
    hide Boundary, Marker, Chunk, TrimSpace, Trimmed, OccursAt, IsRole;
    ChunkOf(m);
    WordFacts(m.role);
    OccursFits(s, |m.role|);
    BoundaryShape(s, |m.role|);
    var r := |m.role|;
    assert s[..r] == m.role;
    assert m.content[0] == Chunk(m)[r + 1] == s[r + 1] == '<';
    assert ParseTrimmed(m.role) == Message("user", m.role);
  }

  /** A proper part of the content is left, so the parsed content is shorter. */
  lemma PartOfContent(m: Message, s: string, i: nat)
    requires WellFormed(m) && Chunk(m) <= s && |m.role| < i < |Chunk(m)| && s[i] == '\n'
    ensures TrimSpace(s[..i]) != "" && ParseTrimmed(TrimSpace(s[..i])) != m
  {
    hide Chunk, TrimSpace, Lower, IsRole, IsWord, LineBreak;
    ChunkOf(m);
    WordFacts(m.role);
    var r, trimmed := |m.role|, TrimSpace(s[..i]);
    PieceKeepsRole(m, s, i);
    assert trimmed[..r] == m.role;
    BreakBehindRole(m.role, trimmed);
    assert LineBreak(trimmed) == Some(r);
    TrimNotLonger(trimmed[r + 1..]);
    assert |trimmed[r + 1..]| <= i - (r + 1) < |m.content|;
    NonemptyWord(m.role);
  }

  lemma PieceKeepsRole(m: Message, s: string, i: nat)
    requires WellFormed(m) && Chunk(m) <= s && |m.role| < i < |Chunk(m)| && s[i] == '\n'
    ensures var trimmed := TrimSpace(s[..i]);
            |m.role| < |trimmed| <= i && m.role <= trimmed && trimmed[|m.role|] == '\n'
  {
    hide Chunk, TrimSpace, Lower, IsRole, IsWord, LineBreak, TrimLeft, TrimRight, IsSpace;
    ChunkOf(m);
    WordFacts(m.role);
    NonemptyWord(m.role);
    var r, piece := |m.role|, s[..i];
    assert forall k :: 0 <= k < i ==> piece[k] == Chunk(m)[k];
    assert piece[0] == m.role[0];
    assert s[r + 1] == Chunk(m)[r + 1] == m.content[0];
    BreakIsSpace();
    assert i > r + 1;
    assert piece[r + 1] == m.content[0];
    TrimSpaceKeeps(piece, r + 1);
    assert piece[r] == '\n';
    assert forall k :: 0 <= k < r ==> piece[k] == m.role[k];
  }

  lemma BreakIsSpace()
    ensures IsSpace('\n')
  {
  }

  lemma TrimSpaceKeeps(s: string, k: nat)
    requires k < |s| && !IsSpace(s[0]) && !IsSpace(s[k])
    ensures k < |TrimSpace(s)| <= |s| && TrimSpace(s) <= s
  {
    KeepsNonspace(s, k);
    TrimRightShape(s);
  }

  lemma TrimNotLonger(s: string)
    ensures |TrimSpace(s)| <= |s|
  {
    TrimLeftShape(s);
    TrimRightShape(TrimLeft(s));
  }

  lemma {:induction false} KeepsNonspace(s: string, k: nat)
    requires k < |s| && !IsSpace(s[k])
    ensures |TrimRight(s)| > k
  {
    if IsSpace(s[|s| - 1]) {
      KeepsNonspace(s[..|s| - 1], k);
    }
  }

  // ---- All chunks ----

  lemma JoinStartsWithRole(ms: seq<Message>)
    requires ms != [] && WellFormed(ms[0])
    ensures JoinChunks(ms) != "" && !IsSpace(JoinChunks(ms)[0])
  {
    hide Chunk, TrimSpace, IsSpace, WellFormed, Boundary;
    ChunkOf(ms[0]);
    assert JoinChunks(ms)[0] == Chunk(ms[0])[0];
  }

  lemma {:induction false} JoinEndsWithContent(ms: seq<Message>)
    requires ms != [] && forall i :: 0 <= i < |ms| ==> WellFormed(ms[i])
    ensures var p := JoinChunks(ms); p != "" && !IsSpace(p[|p| - 1])
  {
    if |ms| == 1 {
      ChunkOf(ms[0]);
    } else {
      assert forall i :: 0 <= i < |ms[1..]| ==> ms[1..][i] == ms[i + 1];
      JoinEndsWithContent(ms[1..]);
    }
  }

  /** Splitting and parsing the joined chunks gives the messages back exactly when every content is clean. */
  lemma {:induction false} ParseOfJoin(ms: seq<Message>)
    requires ms != [] && forall i :: 0 <= i < |ms| ==> WellFormed(ms[i])
    ensures ParseChunks(Split(JoinChunks(ms))) == ms <==> AllClean(ms)
    ensures ParseChunks(Split(JoinChunks(ms))) != []
  {
    hide Chunk, Clean, WellFormed, ParseTrimmed, Split;
    var m, last := ms[0], |ms| == 1;
    var tail := ms[1..];
    var rest := if last then "" else Boundary() + JoinChunks(tail);
    var p := Chunk(m) + rest;
    assert JoinChunks(ms) == p;
    assert forall i :: 0 <= i < |tail| ==> tail[i] == ms[i + 1];
    if !Clean(m, last) {
      assert !last ==> rest == Boundary() + JoinChunks(tail);
      CutChunk(m, last, rest);
      var pieces := Split(p);
      assert ParseChunks(pieces)[0] == ParseTrimmed(TrimSpace(pieces[0]));
    } else if last {
      SplitLast(m);
      ParseOfChunk(m);
      ChunkOf(m);
      ChunkNonempty(m);
      assert p == Chunk(m);
      assert [Chunk(m)][1..] == [];
      assert ParseChunks([Chunk(m)]) == [m];
      assert ms == [m];
    } else {
      SplitClean(m, rest);
      assert rest[|Boundary()|..] == JoinChunks(tail);
      ParseOfChunk(m);
      ChunkOf(m);
      ChunkNonempty(m);
      ParseOfJoin(tail);
      var more := Split(JoinChunks(tail));
      assert ([Chunk(m)] + more)[1..] == more;
      assert ParseChunks([Chunk(m)] + more) == [m] + ParseChunks(more);
      assert ms == [m] + tail;
      assert ([m] + ParseChunks(more))[1..] == ParseChunks(more);
      CleanTail(ms);
    }
  }

  lemma CleanTail(ms: seq<Message>)
    requires |ms| >= 2
    ensures AllClean(ms) <==> Clean(ms[0], false) && AllClean(ms[1..])
  {
    hide Clean;
    var tail := ms[1..];
    if AllClean(ms) {
      forall i | 0 <= i < |tail| ensures Clean(tail[i], i == |tail| - 1) {
        assert Clean(ms[i + 1], i + 1 == |ms| - 1);
      }
    }
    if Clean(ms[0], false) && AllClean(tail) {
      forall i | 0 <= i < |ms| ensures Clean(ms[i], i == |ms| - 1) {
        if i > 0 { assert Clean(tail[i - 1], i - 1 == |tail| - 1); }
      }
    }
  }

  lemma ChunkNonempty(m: Message)
    ensures Chunk(m) != ""
  {
  }

  lemma SplitLast(m: Message)
    requires WellFormed(m) && Clean(m, true)
    ensures Split(Chunk(m)) == [Chunk(m)]
  {
    hide Chunk, Boundary, OccursAt, WellFormed, Clean;
    EarlyOccurrence(m, true, "");
    var c := Chunk(m);
    assert c + "" == c;
    var o := IndexOf(c, 0);
    if o.Some? {
      OccursFits(c, o.value);
    }
  }

  /**
   The message round trip, for two or more messages with valid roles and trimmed contents: the
   prompt gives the messages back exactly when no content makes a boundary with its line breaks.
   */
  lemma RoundTrip(ms: seq<Message>)
    requires |ms| >= 2 && forall i :: 0 <= i < |ms| ==> WellFormed(ms[i])
    ensures Restore(Flatten(ms)) == ms <==> AllClean(ms)
  {
    hide Chunk, Clean, WellFormed, ParseTrimmed, Split, ParseChunks, TrimSpace;
    var p := Flatten(ms);
    JoinStartsWithRole(ms);
    JoinEndsWithContent(ms);
    TrimSpaceOfTrimmed(p);
    BoundaryBetween(ms);
    ParseOfJoin(ms);
  }

  lemma BoundaryBetween(ms: seq<Message>)
    requires |ms| >= 2
    ensures HasBoundary(JoinChunks(ms))
  {
    var c, p := Chunk(ms[0]), JoinChunks(ms);
    assert p[|c|..|c| + |Boundary()|] == Boundary();
    assert OccursAt(p, |c|);
  }

  predicate MarkerAt(s: string, i: nat) {
    i + |Marker()| <= |s| && s[i..i + |Marker()|] == Marker()
  }

  /** A content that is not clean holds the marker text; so a content without it is clean. */
  lemma UncleanHoldsMarker(m: Message, last: bool)
    ensures !Clean(m, last) ==> exists i: nat :: MarkerAt(m.content, i)
  {
    hide Boundary, Marker, OccursAt;
    var around := Around(m, last);
    if HasBoundary(around) {
      var i := IndexOf(around, 0).value;
      OccursFits(around, i);
      BoundaryShape(around, i);
      assert around[1..1 + |m.content|] == m.content;
      SliceOfSlice(around, 1, 1 + |m.content|, i + 1, i + 28);
      assert MarkerAt(m.content, i);
    }
  }

  /** A content that merely starts with the marker line is free of the boundary itself, and is lost all the same. */
  lemma LeadingMarkerIsLost()
    ensures var m := Message("user", Marker() + "\nhello");
            WellFormed(m) && !HasBoundary(m.content) && !Clean(m, true)
            && Restore(Flatten([m, m])) != [m, m]
  {
    hide Restore, Flatten, Clean, Boundary;
    var m := Message("user", Marker() + "\nhello");
    LeadingMarker(m);
    assert !AllClean([m, m]) by { assert !Clean([m, m][1], true); }
    RoundTrip([m, m]);
  }

  lemma LeadingMarker(m: Message)
    requires m == Message("user", Marker() + "\nhello")
    ensures WellFormed(m) && !HasBoundary(m.content) && !Clean(m, true)
  {
    hide Marker;
    var around := Around(m, true);
    assert OccursAt(around, 0) by {
      assert around[0..29] == "\n" + Marker() + "\n";
    }
    if HasBoundary(m.content) {
      BoundaryShape(m.content, IndexOf(m.content, 0).value);
      assert false;
    }
  }

  // ---- The loops ----

  /** FlattenMessages. */
  method FlattenMessages(ms: seq<Message>) returns (prompt: string)
    ensures prompt == Flatten(ms)
  {
    if |ms| == 0 {
      return "";
    }
    if |ms| == 1 {
      return ms[0].content;
    }
    hide Chunk;
    prompt := "";
    for i := 0 to |ms|
      invariant i < |ms| ==> prompt + JoinChunks(ms[i..]) == JoinChunks(ms)
      invariant i == |ms| ==> prompt == JoinChunks(ms)
    {
      assert ms[i..][1..] == ms[i + 1..];
      var chunk := Chunk(ms[i]);
      if i + 1 < |ms| {
        assert prompt + (chunk + Boundary() + JoinChunks(ms[i + 1..]))
            == prompt + chunk + Boundary() + JoinChunks(ms[i + 1..]);
        prompt := prompt + chunk + Boundary();
      } else {
        prompt := prompt + chunk;
      }
    }
  }

  /** PromptToChatMessages, with its loop over the chunks. */
  method PromptToChatMessages(prompt: string) returns (out: seq<Message>)
    ensures out == Restore(prompt)
  {
    var p := TrimSpace(prompt);
    if p == "" {
      return [];
    }
    if !HasBoundary(p) {
      return [Message("user", p)];
    }
    hide ParseTrimmed, Split, TrimSpace;
    var chunks := Split(p);
    out := [];
    for i := 0 to |chunks|
      invariant out + ParseChunks(chunks[i..]) == ParseChunks(chunks)
    {
      assert chunks[i..][1..] == chunks[i + 1..];
      var chunk := TrimSpace(chunks[i]);
      if chunk == "" {
        continue;
      }
      out := out + [ParseTrimmed(chunk)];
    }
    if out == [] {
      return [Message("user", p)];
    }
  }
}
