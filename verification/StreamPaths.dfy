/**
 Paths of StreamFS: `parse_path` (crates/racfs-plugin-streamfs/src/fs/mod.rs:151-178) undoes
 the printing of message paths, and sorted data listings come in id order
 (crates/racfs-plugin-streamfs/src/fs/dir.rs:76-87).
 */
module StreamPaths {
  import opened Common
  import opened Decimal
  import opened Paths

  datatype PathComponent =
    | Root
    | StreamsDir
    | StreamDir(name: string)
    | DataDir(name: string)
    | Message(name: string, id: nat)
    | HeadFile(name: string)
    | TailFile(name: string)
    | ConfigFile(name: string)

  // ---------------------------------------------------------------------------
  // Splitting
  // ---------------------------------------------------------------------------

  lemma SlashAtInside(s: string)
    ensures SlashAt(s) <= |s|
    ensures s != "" && s[0] != '/' ==> SlashAt(s) > 0
  {
  }

  /** `split('/')` without the empty pieces. */
  function Pieces(s: string): seq<string>
    decreases |s|
  {
    if s == "" then []
    else if s[0] == '/' then Pieces(s[1..])
    else
      SlashAtInside(s);
      [s[..SlashAt(s)]] + Pieces(s[SlashAt(s)..])
  }

  lemma PiecesOfName(n: Name, rest: string)
    requires rest == "" || rest[0] == '/'
    ensures Pieces(n + rest) == [n] + Pieces(rest)
  {
    SlashAfterName(n, rest);
    var s: string := n + rest;
    assert s[0] == n[0];
    assert s[..|n|] == n && s[|n|..] == rest;
  }

  lemma PiecesAfterSlash(s: string)
    ensures Pieces("/" + s) == Pieces(s)
  {
    assert ("/" + s)[1..] == s;
  }

  /** Splitting a rendered path gives back its names. */
  lemma {:induction false} PiecesOfJoin(p: Path)
    ensures Pieces(Join(p)) == p
  {
    if p != [] {
      var rest := Join(p[1..]);
      JoinStartsWithSlash(p[1..]);
      PiecesOfName(p[0], rest);
      PiecesOfJoin(p[1..]);
      assert Join(p) == "/" + (p[0] + rest);
      PiecesAfterSlash(p[0] + rest);
    }
  }

  // ---------------------------------------------------------------------------
  // Message names
  // ---------------------------------------------------------------------------

  const MSG := ".msg"

  predicate EndsWithMsg(s: string) {
    |s| >= 4 && s[|s|-4..] == MSG
  }

  /** `trim_end_matches(".msg")`: removes every trailing occurrence. */
  function TrimMsg(s: string): string {
    if EndsWithMsg(s) then TrimMsg(s[..|s|-4]) else s
  }

  /** `format!("{:06}.msg", id)`. */
  function FileName(id: nat): string {
    Pad6(id) + MSG
  }

  lemma MsgEndsInG(s: string)
    requires EndsWithMsg(s)
    ensures s[|s|-1] == 'g'
  {
    assert s[|s|-1] == s[|s|-4..][3];
  }

  lemma FileNameParses(id: nat)
    requires id <= U64_MAX
    ensures EndsWithMsg(FileName(id)) && ParseU64(TrimMsg(FileName(id))) == Some(id)
  {
    ParsePad6(id);
    var d := Pad6(id);
    assert FileName(id)[|d|..] == MSG && FileName(id)[..|d|] == d;
    assert IsDigit(d[|d|-1]);
    if EndsWithMsg(d) {
      MsgEndsInG(d);
    }
  }

  /** All trailing `.msg` go, so a doubled suffix names the same message. */
  lemma RepeatedSuffixParses(id: nat)
    requires id <= U64_MAX
    ensures EndsWithMsg(FileName(id) + MSG) && ParseU64(TrimMsg(FileName(id) + MSG)) == Some(id)
  {
    FileNameParses(id);
    var f := FileName(id);
    assert (f + MSG)[|f|..] == MSG && (f + MSG)[..|f|] == f;
  }

  lemma FileNameIsName(id: nat)
    requires id <= U64_MAX
    ensures ValidName(FileName(id))
  {
    ParsePad6(id);
    forall i | 0 <= i < |FileName(id)| ensures FileName(id)[i] != '/' {
      if i < |Pad6(id)| {
        assert IsDigit(Pad6(id)[i]);
      }
    }
  }

  // ---------------------------------------------------------------------------
  // parse_path
  // ---------------------------------------------------------------------------

  /** `parse_path` (mod.rs:151-178). */
  function ParsePath(path: string): Option<PathComponent> {
    ParseParts(Pieces(path))
  }

  function ParseParts(parts: seq<string>): Option<PathComponent> {
    if |parts| == 0 then Some(Root)
    else if parts[0] != "streams" then None
    else if |parts| == 1 then Some(StreamsDir)
    else if |parts| == 2 then Some(StreamDir(parts[1]))
    else if |parts| == 3 then
      if parts[2] == "data" then Some(DataDir(parts[1]))
      else if parts[2] == "head" then Some(HeadFile(parts[1]))
      else if parts[2] == "tail" then Some(TailFile(parts[1]))
      else if parts[2] == "config" then Some(ConfigFile(parts[1]))
      else None
    else if |parts| == 4 && parts[2] == "data" && EndsWithMsg(parts[3]) then
      var id := ParseU64(TrimMsg(parts[3]));
      if id.Some? then Some(Message(parts[1], id.value)) else None
    else None
  }

  /** `format!("/streams/{}/data/{:06}.msg", name, id)` (dir.rs:81). */
  function MessagePath(name: string, id: nat): string {
    "/" + "streams" + ("/" + name + ("/" + "data" + ("/" + FileName(id))))
  }

  lemma JoinFour(a: Name, b: Name, c: Name, d: Name)
    ensures Join([a, b, c, d]) == "/" + a + ("/" + b + ("/" + c + ("/" + d)))
  {
    var p3: Path := [d];
    var p2: Path := [c] + p3;
    var p1: Path := [b] + p2;
    JoinCons(d, []);
    assert p3 == [d] + [] && Join([]) == "";
    JoinCons(c, p3);
    JoinCons(b, p2);
    JoinCons(a, p1);
    assert [a, b, c, d] == [a] + p1;
  }

  lemma PiecesOfMessage(a: Name, b: Name, c: Name, d: Name)
    ensures Pieces("/" + a + ("/" + b + ("/" + c + ("/" + d)))) == [a, b, c, d]
  {
    JoinFour(a, b, c, d);
    PiecesOfJoin([a, b, c, d]);
  }

  lemma ParseMessage(name: string, id: nat)
    requires id <= U64_MAX
    ensures ParseParts(["streams", name, "data", FileName(id)]) == Some(Message(name, id))
  {
    FileNameParses(id);
  }

  /** Parsing a printed message path gives back the stream and the id, for every non-empty
      slash-free name and every u64. */
  lemma ParsePrinted(name: Name, id: nat)
    requires id <= U64_MAX
    ensures ParsePath(MessagePath(name, id)) == Some(Message(name, id))
  {
    FileNameIsName(id);
    PiecesOfMessage("streams", name, "data", FileName(id));
    ParseMessage(name, id);
  }

  // ---------------------------------------------------------------------------
  // Listings
  // ---------------------------------------------------------------------------

  function InsertName(sorted: seq<string>, x: string): seq<string> {
    if sorted == [] || !Less(x, sorted[|sorted|-1]) then sorted + [x]
    else InsertName(sorted[..|sorted|-1], x) + [sorted[|sorted|-1]]
  }

  /** The sort by path of `read_dir`: all paths share their directory, so names decide. */
  function SortNames(names: seq<string>): seq<string> {
    if names == [] then [] else InsertName(SortNames(names[..|names|-1]), names[|names|-1])
  }

  function Names(ids: seq<nat>): seq<string> {
    if ids == [] then [] else Names(ids[..|ids|-1]) + [FileName(ids[|ids|-1])]
  }

  ghost predicate Ascending(ids: seq<nat>) {
    |ids| > 1 ==> Ascending(ids[..|ids|-1]) && ids[|ids|-2] < ids[|ids|-1]
  }

  lemma FileNameMonotone(a: nat, b: nat)
    requires a < b < 1_000_000
    ensures Less(FileName(a), FileName(b)) && !Less(FileName(b), FileName(a))
  {
    Pad6Monotone(a, b);
    Pad6IsFixed(a);
    Pad6IsFixed(b);
    LessAppend(Pad6(a), Pad6(b), MSG, MSG);
    if Less(FileName(b), FileName(a)) {
      LessTransitive(FileName(a), FileName(b), FileName(a));
    }
    LessIrreflexive(FileName(a));
  }

  /** Below a million, sorting the listing by path leaves it in numeric id order. */
  lemma {:induction false} ListingInIdOrder(ids: seq<nat>)
    requires Ascending(ids) && forall i :: 0 <= i < |ids| ==> ids[i] < 1_000_000
    ensures SortNames(Names(ids)) == Names(ids) && |Names(ids)| == |ids|
  {
    if ids != [] {
      var init := ids[..|ids|-1];
      ListingInIdOrder(init);
      assert Names(ids)[..|Names(ids)|-1] == Names(init);
      if init != [] {
        FileNameMonotone(init[|init|-1], ids[|ids|-1]);
      }
      InsertLast(Names(init), FileName(ids[|ids|-1]));
    }
  }

  lemma InsertLast(names: seq<string>, x: string)
    requires names == [] || !Less(x, names[|names|-1])
    ensures InsertName(names, x) == names + [x]
  {
  }

  lemma NamesOfTwo(i: nat, j: nat)
    ensures Names([i, j]) == [FileName(i), FileName(j)]
  {
    assert [i, j][..1] == [i] && [i][..0] == [];
    assert Names([i]) == Names([]) + [FileName(i)];
  }

  lemma SortTwo(a: string, b: string)
    requires Less(b, a)
    ensures SortNames([a, b]) == [b, a]
  {
    var one: seq<string>, two: seq<string> := [a], [a, b];
    assert two[..1] == one && one[..0] == [];
    assert SortNames(one) == InsertName([], a) == one;
    assert InsertName(one, b) == InsertName([], b) + [a];
  }

  lemma MillionNameFirst()
    ensures Less(FileName(1_000_000), FileName(999_999))
  {
    DigitsOfMillion();
    assert FileName(999_999)[0] == '9' && FileName(1_000_000)[0] == '1';
  }

  /** At a million the listing is out of order. */
  lemma ListingBreaksAtMillion()
    ensures SortNames(Names([999_999, 1_000_000])) == [FileName(1_000_000), FileName(999_999)]
  {
    NamesOfTwo(999_999, 1_000_000);
    MillionNameFirst();
    SortTwo(FileName(999_999), FileName(1_000_000));
  }

  ghost predicate ListedInOrder(ids: seq<nat>) {
    SortNames(Names(ids)) == Names(ids)
  }

  ghost predicate AllBelow(ids: seq<nat>, n: nat) {
    forall i :: 0 <= i < |ids| ==> ids[i] < n
  }

  lemma MillionDisorders(n: nat)
    requires n > 1_000_000
    ensures Ascending([999_999, 1_000_000]) && AllBelow([999_999, 1_000_000], n) && !ListedInOrder([999_999, 1_000_000])
  {
    var ids: seq<nat> := [999_999, 1_000_000];
    assert ids[..1] == [999_999];
    NamesOfTwo(999_999, 1_000_000);
    ListingBreaksAtMillion();
    MillionNameFirst();
    NamesDiffer(FileName(1_000_000), FileName(999_999));
  }

  lemma NamesDiffer(a: string, b: string)
    requires Less(a, b)
    ensures [b, a] != [a, b]
  {
    LessIrreflexive(a);
    assert [b, a][0] == b && [a, b][0] == a;
  }

  /** Directories whose ids are all below `n` are listed in numeric id order exactly when `n` is
      at most a million. */
  lemma ListingInIdOrderIff(n: nat)
    ensures (forall ids :: Ascending(ids) && AllBelow(ids, n) ==> ListedInOrder(ids)) <==> n <= 1_000_000
  {
    if n <= 1_000_000 {
      forall ids | Ascending(ids) && AllBelow(ids, n) ensures ListedInOrder(ids) {
        ListingInIdOrder(ids);
      }
    } else {
      MillionDisorders(n);
    }
  }

  // ---------------------------------------------------------------------------
  // The other printed paths
  // ---------------------------------------------------------------------------

  /** `format!("/streams/{}/{}", name, file)` (dir.rs:54-64). */
  function StreamFile(name: string, file: string): string {
    "/" + "streams" + ("/" + name + ("/" + file))
  }

  lemma JoinOne(a: Name)
    ensures Join([a]) == "/" + a
  {
    JoinCons(a, []);
    assert [a] == [a] + [] && Join([]) == "";
  }

  lemma JoinTwo(a: Name, b: Name)
    ensures Join([a, b]) == "/" + a + ("/" + b)
  {
    JoinOne(b);
    JoinCons(a, [b]);
    assert [a, b] == [a] + [b];
  }

  lemma PiecesOfThree(a: Name, b: Name, c: Name)
    ensures Pieces("/" + a + ("/" + b + ("/" + c))) == [a, b, c]
  {
    JoinTwo(b, c);
    JoinCons(a, [b, c]);
    assert [a, b, c] == [a] + [b, c];
    PiecesOfJoin([a, b, c]);
  }

  lemma ParseThree(name: Name, file: Name)
    ensures ParsePath(StreamFile(name, file)) == ParseParts(["streams", name, file])
  {
    PiecesOfThree("streams", name, file);
  }

  lemma ParseTop()
    ensures ParsePath("/") == Some(Root) && ParsePath("/" + "streams") == Some(StreamsDir)
  {
    assert "/"[1..] == "";
    JoinOne("streams");
    PiecesOfJoin(["streams"]);
  }

  /** Each directory of a stream parses to its own component. */
  lemma ParseDirectories(name: Name)
    ensures ParsePath("/" + "streams" + ("/" + name)) == Some(StreamDir(name))
    ensures ParsePath(StreamFile(name, "data")) == Some(DataDir(name))
  {
    PiecesOfTwo("streams", name);
    ParseThree(name, "data");
  }

  lemma PiecesOfTwo(a: Name, b: Name)
    ensures Pieces("/" + a + ("/" + b)) == [a, b]
  {
    JoinTwo(a, b);
    PiecesOfJoin([a, b]);
  }

  /** Each file of a stream parses to its own component. */
  lemma ParseFiles(name: Name)
    ensures ParsePath(StreamFile(name, "head")) == Some(HeadFile(name))
    ensures ParsePath(StreamFile(name, "tail")) == Some(TailFile(name))
    ensures ParsePath(StreamFile(name, "config")) == Some(ConfigFile(name))
  {
    ParseThree(name, "head");
    ParseThree(name, "tail");
    ParseThree(name, "config");
    FilesDiffer();
  }

  lemma FilesDiffer()
    ensures "head" != "data" && "tail" != "data" && "tail" != "head"
    ensures "config" != "data" && "config" != "head" && "config" != "tail"
  {
    assert "data"[0] == 'd' && "head"[0] == 'h' && "tail"[0] == 't' && "config"[0] == 'c';
  }

  /** No other path means anything. */
  lemma ParseNothingElse(names: Path)
    requires |names| >= 1
    requires names[0] != "streams" || |names| > 4 ||
             (|names| == 3 && names[2] !in {"data", "head", "tail", "config"}) ||
             (|names| == 4 && (names[2] != "data" || !EndsWithMsg(names[3]) || ParseU64(TrimMsg(names[3])).None?))
    ensures ParsePath(Join(names)) == None
  {
    PiecesOfJoin(names);
  }

  // ---------------------------------------------------------------------------
  // The sort
  // ---------------------------------------------------------------------------

  ghost predicate InOrder(names: seq<string>) {
    |names| > 1 ==> InOrder(names[..|names|-1]) && !Less(names[|names|-1], names[|names|-2])
  }

  lemma PushInOrder(names: seq<string>, x: string)
    requires InOrder(names) && (names == [] || !Less(x, names[|names|-1]))
    ensures InOrder(names + [x])
  {
    assert (names + [x])[..|names|] == names;
  }

  lemma {:induction false} InsertNameInOrder(names: seq<string>, x: string)
    requires InOrder(names)
    ensures InsertName(names, x) != [] && InOrder(InsertName(names, x))
    ensures var last := InsertName(names, x)[|InsertName(names, x)|-1];
            last == x || (names != [] && last == names[|names|-1])
  {
    if names == [] || !Less(x, names[|names|-1]) {
      PushInOrder(names, x);
    } else {
      var init, last := names[..|names|-1], names[|names|-1];
      InsertNameInOrder(init, x);
      LessAsymmetric(x, last);
      PushInOrder(InsertName(init, x), last);
    }
  }

  lemma {:induction false} InsertNameKeeps(names: seq<string>, x: string)
    ensures multiset(InsertName(names, x)) == multiset(names) + multiset{x}
  {
    if !(names == [] || !Less(x, names[|names|-1])) {
      InsertNameKeeps(names[..|names|-1], x);
      assert names == names[..|names|-1] + [names[|names|-1]];
    }
  }

  lemma LessAsymmetric(s: string, t: string)
    requires Less(s, t)
    ensures !Less(t, s)
  {
    if Less(t, s) {
      LessTransitive(s, t, s);
    }
    LessIrreflexive(s);
  }

  lemma {:induction false} SortNamesInOrder(names: seq<string>)
    ensures InOrder(SortNames(names))
  {
    if names != [] {
      SortNamesInOrder(names[..|names|-1]);
      InsertNameInOrder(SortNames(names[..|names|-1]), names[|names|-1]);
    }
  }

  lemma {:induction false} SortNamesKeeps(names: seq<string>)
    ensures multiset(SortNames(names)) == multiset(names)
  {
    if names != [] {
      SortNamesKeeps(names[..|names|-1]);
      InsertNameKeeps(SortNames(names[..|names|-1]), names[|names|-1]);
      assert names == names[..|names|-1] + [names[|names|-1]];
    }
  }

  /** The listing is in string order and a permutation of the names. */
  lemma SortNamesCorrect(names: seq<string>)
    ensures InOrder(SortNames(names)) && multiset(SortNames(names)) == multiset(names)
  {
    SortNamesInOrder(names);
    SortNamesKeeps(names);
  }
}
