/** The remote command lines of internal/backup/service.go, and what the shell reads them as. A command
    is given part by part in the order of its format string; `Render` is its text. */
module Commands {
  import opened Shell
  import opened Naming
  import opened Domain
  import opened Strings

  predicate NoNul(s: string) { '\0' !in s }

  predicate GoodLiteral(t: string) {
    t != "" && AllPlain(t) && t[0] != '#' && t[0] != '~'
  }

  /** A word of the format string itself, unquoted. */
  function Lit(t: string): (p: Part)
    ensures p.blank && p.chunk.Arg? && TokenOf(p.chunk) == Word(t) && ChunkText(p.chunk) == t
    ensures GoodLiteral(t) ==> GoodChunk(p.chunk)
  {
    SinglePiece(Bare(t));
    Part(true, Arg([Bare(t)]))
  }

  /** The first word of a line. */
  function Cmd(t: string): (p: Part)
    ensures !p.blank && p.chunk.Arg? && TokenOf(p.chunk) == Word(t) && ChunkText(p.chunk) == t
    ensures GoodLiteral(t) ==> GoodChunk(p.chunk)
  {
    Lit(t).(blank := false)
  }

  /** An escaped argument, `%s` filled with `shellEscape(v)`. */
  function Esc(v: string): (p: Part)
    ensures p.blank && p.chunk.Arg? && TokenOf(p.chunk) == Word(v) && ChunkText(p.chunk) == ShellEscape(v)
    ensures NoNul(v) ==> GoodChunk(p.chunk)
  {
    SinglePiece(Quoted(v));
    Part(true, Arg([Quoted(v)]))
  }

  /** `%s:%s`: two escaped strings around a colon, one word. */
  function Pair(c: string, p: string): (r: Part)
    ensures r.blank && r.chunk.Arg? && TokenOf(r.chunk) == Word(c + ":" + p)
    ensures ChunkText(r.chunk) == ShellEscape(c) + ":" + ShellEscape(p)
    ensures NoNul(c) && NoNul(p) ==> GoodChunk(r.chunk)
  {
    var tail := [Bare(":"), Quoted(p)];
    SinglePiece(Quoted(p));
    assert tail[1..] == [Quoted(p)];
    assert Written(tail) == ":" + ShellEscape(p) && Meant(tail) == ":" + p && (NoNul(p) ==> GoodPieces(tail));
    assert ([Quoted(c)] + tail)[1..] == tail;
    Assoc(ShellEscape(c), ":", ShellEscape(p));
    Assoc(c, ":", p);
    Part(true, Arg([Quoted(c)] + tail))
  }

  /** `%s/.`: the contents of a directory. */
  function Contents(dir: string): (r: Part)
    ensures r.blank && r.chunk.Arg? && TokenOf(r.chunk) == Word(dir + "/.")
    ensures ChunkText(r.chunk) == ShellEscape(dir) + "/."
    ensures NoNul(dir) ==> GoodChunk(r.chunk)
  {
    SinglePiece(Bare("/."));
    assert ([Quoted(dir)] + [Bare("/.")])[1..] == [Bare("/.")];
    Part(true, Arg([Quoted(dir)] + [Bare("/.")]))
  }

  function Oper(op: string): (p: Part)
    ensures p.blank && p.chunk == Op(op) && TokenOf(p.chunk) == Operator(op) && ChunkText(p.chunk) == op
    ensures op == "&&" || op == "|" || op == ";" || op == ">" ==> GoodChunk(p.chunk)
  {
    Part(true, Op(op))
  }

  /** The descriptor number of a redirection. */
  function Descriptor(d: char): (p: Part)
    requires IsDigit(d)
    ensures p.blank && p.chunk == Fd(d) && TokenOf(p.chunk) == IoNumber([d]) && GoodChunk(p.chunk)
    ensures ChunkText(p.chunk) == [d]
  {
    Part(true, Fd(d))
  }

  /** An operator or word written directly behind the part before it. */
  function Glued(p: Part): Part { p.(blank := false) }

  /** The words of the format strings are words to the shell. */
  lemma FileLiterals()
    ensures GoodLiteral("rm") && GoodLiteral("-rf") && GoodLiteral("mkdir") && GoodLiteral("-p")
    ensures GoodLiteral("docker") && GoodLiteral("cp")
  {
  }

  lemma TarLiterals()
    ensures GoodLiteral("tar") && GoodLiteral("-C") && GoodLiteral("-czf") && GoodLiteral("-xzf")
    ensures GoodLiteral("payload")
  {
  }

  lemma ProbeLiterals()
    ensures GoodLiteral("if") && GoodLiteral("[") && GoodLiteral("-d") && GoodLiteral("]") && GoodLiteral("fi")
    ensures GoodLiteral("then") && GoodLiteral("echo") && GoodLiteral("dir") && GoodLiteral("else")
    ensures GoodLiteral("file")
  {
  }

  lemma HashLiterals()
    ensures GoodLiteral("find") && GoodLiteral("-type") && GoodLiteral("f") && GoodLiteral("LC_ALL=C")
    ensures GoodLiteral("sort")
  {
  }

  lemma PipelineLiterals()
    ensures GoodLiteral("sha256sum") && GoodLiteral("awk") && NoNul("{print $1}")
  {
  }

  lemma XargsLiterals()
    ensures GoodLiteral("xargs") && GoodLiteral("-r") && GoodLiteral("/dev/null")
  {
  }

  // ---------------------------------------------------------------- texts

  /** Words with one blank between them, as the format strings are written. */
  function Join(words: seq<string>): string {
    if words == [] then ""
    else if |words| == 1 then words[0]
    else Join(words[..|words| - 1]) + " " + words[|words| - 1]
  }

  /** What a further part does to the words. */
  function Extended(words: seq<string>, text: string, blank: bool): seq<string> {
    if blank || words == [] then words + [text] else words[..|words| - 1] + [words[|words| - 1] + text]
  }

  /** The blank-separated words of a line; a part written without a blank continues the word before it. */
  function Spelled(parts: seq<Part>): (words: seq<string>)
    ensures words != [] <==> parts != []
  {
    if parts == [] then []
    else
      var n := |parts| - 1;
      Extended(Spelled(parts[..n]), ChunkText(parts[n].chunk), parts[n].blank)
  }

  /** The text of a command line is its words joined by blanks. */
  lemma {:induction false} RenderIsJoin(parts: seq<Part>)
    requires parts != [] ==> !parts[0].blank
    ensures Render(parts) == Join(Spelled(parts))
  {
    hide ChunkText;
    if parts == [] {
    } else {
      var n := |parts| - 1;
      var words, text := Spelled(parts[..n]), ChunkText(parts[n].chunk);
      RenderIsJoin(parts[..n]);
      if n == 0 {
        assert Render(parts[..0]) == "" && "" + ("" + text) == text;
      } else if parts[n].blank {
        JoinSnoc(words, text);
        Assoc(Join(words), " ", text);
      } else {
        JoinGlued(words, text);
        assert "" + text == text;
      }
    }
  }

  lemma JoinSnoc(words: seq<string>, text: string)
    requires words != []
    ensures Join(words + [text]) == Join(words) + " " + text
  {
    assert (words + [text])[..|words|] == words;
  }

  lemma JoinOne(word: string)
    ensures Join([word]) == word
  {
  }

  lemma JoinGlued(words: seq<string>, text: string)
    requires words != []
    ensures Join(words[..|words| - 1] + [words[|words| - 1] + text]) == Join(words) + text
  {
    hide Join;
    var front, last := words[..|words| - 1], words[|words| - 1];
    assert words == front + [last];
    JoinEnds(front, last, text);
  }

  lemma JoinEnds(front: seq<string>, last: string, text: string)
    ensures Join(front + [last + text]) == Join(front + [last]) + text
  {
    hide Join;
    if front == [] {
      JoinOne(last);
      JoinOne(last + text);
      assert [] + [last] == [last];
      assert [] + [last + text] == [last + text];
    } else {
      JoinSnoc(front, last);
      JoinSnoc(front, last + text);
      Assoc(Join(front) + " ", last, text);
    }
  }

  lemma {:induction false} SpelledConcat(a: seq<Part>, b: seq<Part>)
    requires b != [] ==> b[0].blank
    ensures Spelled(a + b) == Spelled(a) + Spelled(b)
  {
    hide ChunkText, Spelled, Extended;
    if b == [] {
      assert a + b == a;
    } else {
      var n := |b| - 1;
      SpelledConcat(a, b[..n]);
      SpelledSnoc(b[..n], b[n]);
      SpelledSnoc(a + b[..n], b[n]);
      assert b[..n] + [b[n]] == b && a + b[..n] + [b[n]] == a + b;
      ExtendLast(Spelled(a), Spelled(b[..n]), ChunkText(b[n].chunk), b[n].blank);
    }
  }

  lemma SpelledSnoc(parts: seq<Part>, p: Part)
    ensures Spelled(parts + [p]) == Extended(Spelled(parts), ChunkText(p.chunk), p.blank)
  {
    hide ChunkText;
    assert (parts + [p])[..|parts|] == parts;
  }

  lemma ExtendLast(a: seq<string>, b: seq<string>, text: string, blank: bool)
    requires b == [] ==> blank
    ensures Extended(a + b, text, blank) == a + Extended(b, text, blank)
  {
    if !blank {
      assert (a + b)[|a + b| - 1] == b[|b| - 1] && (a + b)[..|a + b| - 1] == a + b[..|b| - 1];
    }
  }

  lemma SpelledOne(a: Part, x: string)
    requires ChunkText(a.chunk) == x
    ensures Spelled([a]) == [x]
  {
    hide ChunkText;
    SpelledSnoc([], a);
    assert [] + [a] == [a];
  }

  lemma SpelledTwo(a: Part, b: Part, x: string, y: string)
    requires ChunkText(a.chunk) == x && ChunkText(b.chunk) == y && b.blank
    ensures Spelled([a, b]) == [x, y]
  {
    hide ChunkText, Spelled;
    SpelledOne(a, x);
    SpelledSnoc([a], b);
    assert [a] + [b] == [a, b];
  }

  lemma SpelledThree(a: Part, b: Part, c: Part, x: string, y: string, z: string)
    requires ChunkText(a.chunk) == x && ChunkText(b.chunk) == y && ChunkText(c.chunk) == z && b.blank && c.blank
    ensures Spelled([a, b, c]) == [x, y, z]
  {
    hide ChunkText, Spelled;
    SpelledTwo(a, b, x, y);
    SpelledSnoc([a, b], c);
    assert [a, b] + [c] == [a, b, c];
  }

  lemma SpelledFour(a: Part, b: Part, c: Part, d: Part, w: string, x: string, y: string, z: string)
    requires ChunkText(a.chunk) == w && ChunkText(b.chunk) == x && ChunkText(c.chunk) == y && ChunkText(d.chunk) == z
    requires b.blank && c.blank && d.blank
    ensures Spelled([a, b, c, d]) == [w, x, y, z]
  {
    hide ChunkText, Spelled;
    SpelledThree(a, b, c, w, x, y);
    SpelledSnoc([a, b, c], d);
    assert [a, b, c] + [d] == [a, b, c, d];
  }

  // ---------------------------------------------------------------- staging directories

  function StagingPath(id: string): string { "/tmp/pterobackup-" + SanitizeName(id) }

  function RestoreStagingPath(id: string): string { "/tmp/pterobackup-restore-" + SanitizeName(id) }

  /** For every item id the staging directories are single entries of /tmp under the program's own prefixes: what
      follows the prefix is the sanitized id, not empty and without a slash. */
  lemma StagingShape(id: string)
    ensures var s, n := StagingPath(id), SanitizeName(id);
      s == "/tmp/pterobackup-" + n && |n| > 0 && |s| == 17 + |n| && s[..17] == "/tmp/pterobackup-" && '/' !in s[17..]
    ensures var s, n := RestoreStagingPath(id), SanitizeName(id);
      && s == "/tmp/pterobackup-restore-" + n && |n| > 0 && |s| == 25 + |n|
      && s[..25] == "/tmp/pterobackup-restore-" && '/' !in s[25..]
  {
    hide SanitizeName;
    SanitizeNameSafe(id);
    assert StagingPath(id)[17..] == SanitizeName(id) == RestoreStagingPath(id)[25..];
  }

  /** Two ids share a staging directory if and only if they sanitize alike; and a backup of one item works in the
      directory where another one is restored if and only if its name is that of the other behind "restore-". */
  lemma StagingSharedExact(id: string, id': string)
    ensures StagingPath(id) == StagingPath(id') <==> SanitizeName(id) == SanitizeName(id')
    ensures RestoreStagingPath(id) == RestoreStagingPath(id') <==> SanitizeName(id) == SanitizeName(id')
    ensures StagingPath(id) == RestoreStagingPath(id') <==> SanitizeName(id) == "restore-" + SanitizeName(id')
  {
    hide SanitizeName;
    StagingShape(id);
    StagingShape(id');
    var n, n' := SanitizeName(id), SanitizeName(id');
    assert ("/tmp/pterobackup-" + n)[17..] == n && ("/tmp/pterobackup-" + n')[17..] == n';
    assert ("/tmp/pterobackup-restore-" + n)[25..] == n && ("/tmp/pterobackup-restore-" + n')[25..] == n';
    RestorePrefixSplits();
    Assoc("/tmp/pterobackup-", "restore-", n');
    assert ("/tmp/pterobackup-" + ("restore-" + n'))[17..] == "restore-" + n';
  }

  lemma RestorePrefixSplits()
    ensures "/tmp/pterobackup-" + "restore-" == "/tmp/pterobackup-restore-"
  {
  }

  /** So every id that sanitizing leaves alone is restored where the item with "restore-" before it is backed up. */
  lemma StagingCollides(id: string)
    requires SanitizeName(id) == id
    ensures StagingPath("restore-" + id) == RestoreStagingPath(id)
  {
    hide SanitizeName;
    SanitizeNameFixedPoints(id);
    var r := "restore-" + id;
    assert r[0] == 'r' && r[|r| - 1] == id[|id| - 1];
    forall i | 0 <= i < |r| ensures Safe(r[i]) {
      if i >= 8 { assert r[i] == id[i - 8] && id[i - 8] in id; }
    }
    SanitizeNameFixedPoints(r);
    StagingSharedExact(r, id);
  }

  /** The staging paths go into commands unquoted; for every item id they mean themselves there. */
  lemma StagingIsLiteral(id: string)
    ensures GoodLiteral(StagingPath(id)) && GoodLiteral(RestoreStagingPath(id))
  {
    hide SanitizeName, GoodLiteral, AllPlain;
    SanitizeNameSafe(id);
    SafeIsPlain(SanitizeName(id));
    StagingPrefix();
    RestorePrefix();
    PlainAfter("/tmp/pterobackup-", SanitizeName(id));
    PlainAfter("/tmp/pterobackup-restore-", SanitizeName(id));
  }

  predicate PathChar(c: char) { 'a' <= c <= 'z' || c == '/' || c == '-' }

  lemma PathIsPlain(s: string)
    requires forall i :: 0 <= i < |s| ==> PathChar(s[i])
    ensures AllPlain(s)
  {
  }

  lemma StagingPrefix()
    ensures GoodLiteral("/tmp/pterobackup-")
  {
    hide AllPlain;
    PathIsPlain("/tmp/pterobackup-");
  }

  lemma RestorePrefix()
    ensures GoodLiteral("/tmp/pterobackup-restore-")
  {
    hide AllPlain;
    PathIsPlain("/tmp/pterobackup-restore-");
  }

  lemma PlainAfter(prefix: string, s: string)
    requires GoodLiteral(prefix) && AllPlain(s)
    ensures GoodLiteral(prefix + s)
  {
  }

  lemma SafeIsPlain(s: string)
    requires AllSafe(s)
    ensures AllPlain(s)
  {
  }

  function CreateStaging(s: string): seq<Part> {
    [Cmd("rm"), Lit("-rf"), Lit(s), Oper("&&"), Lit("mkdir"), Lit("-p"), Lit(s)]
  }

  function RemoveStaging(s: string): seq<Part> {
    [Cmd("rm"), Lit("-rf"), Lit(s)]
  }

  lemma CreateStagingParts(s: string)
    ensures CreateStaging(s) == RemoveStaging(s) + [Oper("&&"), Lit("mkdir"), Lit("-p"), Lit(s)]
  {
    hide Lit, Cmd, Oper, ChunkText, GoodChunk, GoodLiteral, TokenOf;
  }

  /** The texts are those of `rm -rf %s && mkdir -p %s` and `rm -rf %s`. */
  lemma StagingTexts(s: string)
    ensures Render(CreateStaging(s)) == Join(["rm", "-rf", s] + ["&&", "mkdir", "-p", s])
    ensures Render(RemoveStaging(s)) == Join(["rm", "-rf", s])
  {
    hide Render, Lit, Cmd, Oper, ChunkText, Join, Spelled, CreateStaging, GoodChunk, GoodLiteral, TokenOf;
    var remove, make := RemoveStaging(s), [Oper("&&"), Lit("mkdir"), Lit("-p"), Lit(s)];
    SpelledThree(Cmd("rm"), Lit("-rf"), Lit(s), "rm", "-rf", s);
    SpelledFour(Oper("&&"), Lit("mkdir"), Lit("-p"), Lit(s), "&&", "mkdir", "-p", s);
    SpelledConcat(remove, make);
    RenderIsJoin(remove);
    RenderIsJoin(remove + make);
    CreateStagingParts(s);
  }

  lemma StagingLine(s: string)
    ensures Render(CreateStaging(s)) == "rm -rf " + s + " && mkdir -p " + s
    ensures Render(RemoveStaging(s)) == "rm -rf " + s
  {
    hide Render, CreateStaging, RemoveStaging, Join;
    StagingTexts(s);
    var remove := ["rm", "-rf", s];
    JoinOne("rm");
    JoinSnoc(["rm"], "-rf");
    JoinSnoc(["rm", "-rf"], s);
    JoinSnoc(remove, "&&");
    JoinSnoc(remove + ["&&"], "mkdir");
    JoinSnoc(remove + ["&&", "mkdir"], "-p");
    JoinSnoc(remove + ["&&", "mkdir", "-p"], s);
    assert ["rm"] + ["-rf"] == ["rm", "-rf"] && ["rm", "-rf"] + [s] == remove;
    assert remove + ["&&"] + ["mkdir"] == remove + ["&&", "mkdir"];
    assert remove + ["&&", "mkdir"] + ["-p"] == remove + ["&&", "mkdir", "-p"];
    assert remove + ["&&", "mkdir", "-p"] + [s] == remove + ["&&", "mkdir", "-p", s];
    assert "rm" + " " + "-rf" + " " == "rm -rf ";
    assert "rm -rf " + s + " " + "&&" + " " + "mkdir" + " " + "-p" + " " + s == "rm -rf " + s + " && mkdir -p " + s;
  }

  /** The staging lines sent for an item, in full. */
  lemma StagingLines(id: string)
    ensures var n := SanitizeName(id);
      && Render(CreateStaging(StagingPath(id))) ==
         "rm -rf /tmp/pterobackup-" + n + " && mkdir -p /tmp/pterobackup-" + n
      && Render(RemoveStaging(StagingPath(id))) == "rm -rf /tmp/pterobackup-" + n
      && Render(CreateStaging(RestoreStagingPath(id))) ==
         "rm -rf /tmp/pterobackup-restore-" + n + " && mkdir -p /tmp/pterobackup-restore-" + n
      && Render(RemoveStaging(RestoreStagingPath(id))) == "rm -rf /tmp/pterobackup-restore-" + n
  {
    hide Render, CreateStaging, RemoveStaging, SanitizeName;
    StagingLine(StagingPath(id));
    StagingLine(RestoreStagingPath(id));
    Spliced("/tmp/pterobackup-", SanitizeName(id));
    Spliced("/tmp/pterobackup-restore-", SanitizeName(id));
    assert "rm -rf " + "/tmp/pterobackup-" == "rm -rf /tmp/pterobackup-";
    assert " && mkdir -p " + "/tmp/pterobackup-" == " && mkdir -p /tmp/pterobackup-";
    assert "rm -rf " + "/tmp/pterobackup-restore-" == "rm -rf /tmp/pterobackup-restore-";
    assert " && mkdir -p " + "/tmp/pterobackup-restore-" == " && mkdir -p /tmp/pterobackup-restore-";
  }

  lemma Spliced(prefix: string, n: string)
    ensures "rm -rf " + (prefix + n) == "rm -rf " + prefix + n
    ensures "rm -rf " + (prefix + n) + " && mkdir -p " + (prefix + n) ==
            "rm -rf " + prefix + n + (" && mkdir -p " + prefix) + n
  {
  }

  /** What the shell makes of them: it removes and creates that one directory. */
  lemma StagingCommandsRead(id: string, restore: bool)
    ensures var s := if restore then RestoreStagingPath(id) else StagingPath(id);
      var dir := (if restore then "/tmp/pterobackup-restore-" else "/tmp/pterobackup-") + SanitizeName(id);
      && Tokenize(Render(CreateStaging(s))) ==
         Some([Word("rm"), Word("-rf"), Word(dir), Operator("&&"), Word("mkdir"), Word("-p"), Word(dir)])
      && Tokenize(Render(RemoveStaging(s))) == Some([Word("rm"), Word("-rf"), Word(dir)])
  {
    hide Tokenize, Render, Lit, Cmd, Oper, GoodChunk, GoodLiteral;
    hide AllPlain, ChunkText, StagingPath, RestoreStagingPath, SanitizeName, TokenOf;
    FileLiterals();
    var s := if restore then RestoreStagingPath(id) else StagingPath(id);
    StagingIsLiteral(id);
    StagingShape(id);
    RenderRoundTrip(CreateStaging(s));
    RenderRoundTrip(RemoveStaging(s));
    assert Tokens(CreateStaging(s)) ==
      [Word("rm"), Word("-rf"), Word(s), Operator("&&"), Word("mkdir"), Word("-p"), Word(s)];
    assert Tokens(RemoveStaging(s)) == [Word("rm"), Word("-rf"), Word(s)];
  }

  // ---------------------------------------------------------------- docker cp and tar

  function CopyOut(container: string, path: string, dst: string): seq<Part> {
    [Cmd("docker"), Lit("cp"), Pair(container, path), Esc(dst)]
  }

  function CopyInFile(src: string, container: string, path: string): seq<Part> {
    [Cmd("docker"), Lit("cp"), Esc(src), Pair(container, path)]
  }

  function CopyInDirectory(src: string, container: string, path: string): seq<Part> {
    [Cmd("docker"), Lit("cp"), Contents(src), Pair(container, path)]
  }

  /** The texts are those of `docker cp %s:%s %s`, `docker cp %s %s:%s` and `docker cp %s/. %s:%s`. */
  lemma DockerCommandTexts(file: string, container: string, path: string)
    ensures Render(CopyOut(container, path, file)) ==
      Join(["docker", "cp", ShellEscape(container) + ":" + ShellEscape(path), ShellEscape(file)])
    ensures Render(CopyInFile(file, container, path)) ==
      Join(["docker", "cp", ShellEscape(file), ShellEscape(container) + ":" + ShellEscape(path)])
    ensures Render(CopyInDirectory(file, container, path)) ==
      Join(["docker", "cp", ShellEscape(file) + "/.", ShellEscape(container) + ":" + ShellEscape(path)])
  {
    hide Render, Lit, Cmd, Esc, Pair, Contents, ChunkText, Join, Spelled, ShellEscape;
    var pair := ShellEscape(container) + ":" + ShellEscape(path);
    RenderIsJoin(CopyOut(container, path, file));
    RenderIsJoin(CopyInFile(file, container, path));
    RenderIsJoin(CopyInDirectory(file, container, path));
    SpelledFour(Cmd("docker"), Lit("cp"), Pair(container, path), Esc(file), "docker", "cp", pair, ShellEscape(file));
    SpelledFour(Cmd("docker"), Lit("cp"), Esc(file), Pair(container, path), "docker", "cp", ShellEscape(file), pair);
    SpelledFour(Cmd("docker"), Lit("cp"), Contents(file), Pair(container, path),
                "docker", "cp", ShellEscape(file) + "/.", pair);
  }

  /** docker receives container names and paths exactly as configured, whatever characters they hold. */
  lemma DockerCommandsRead(file: string, container: string, path: string)
    requires NoNul(file) && NoNul(container) && NoNul(path)
    ensures Tokenize(Render(CopyOut(container, path, file))) ==
      Some([Word("docker"), Word("cp"), Word(container + ":" + path), Word(file)])
    ensures Tokenize(Render(CopyInFile(file, container, path))) ==
      Some([Word("docker"), Word("cp"), Word(file), Word(container + ":" + path)])
    ensures Tokenize(Render(CopyInDirectory(file, container, path))) ==
      Some([Word("docker"), Word("cp"), Word(file + "/."), Word(container + ":" + path)])
  {
    hide Tokenize, Render, Lit, Cmd, Esc, Pair, Contents, GoodChunk;
    hide GoodLiteral, AllPlain, NoNul, ShellEscape, ChunkText, TokenOf;
    FileLiterals();
    RenderRoundTrip(CopyOut(container, path, file));
    RenderRoundTrip(CopyInFile(file, container, path));
    RenderRoundTrip(CopyInDirectory(file, container, path));
    assert Tokens(CopyOut(container, path, file)) ==
      [Word("docker"), Word("cp"), Word(container + ":" + path), Word(file)];
    assert Tokens(CopyInFile(file, container, path)) ==
      [Word("docker"), Word("cp"), Word(file), Word(container + ":" + path)];
    assert Tokens(CopyInDirectory(file, container, path)) ==
      [Word("docker"), Word("cp"), Word(file + "/."), Word(container + ":" + path)];
  }

  function Archive(staging: string, dst: string): seq<Part> {
    [Cmd("tar"), Lit("-C"), Esc(staging), Lit("-czf"), Esc(dst), Lit("payload")]
  }

  function Extract(dir: string, archive: string): seq<Part> {
    [Cmd("mkdir"), Lit("-p"), Esc(dir), Oper("&&"), Lit("tar"), Lit("-C"), Esc(dir), Lit("-xzf"), Esc(archive)]
  }

  /** The texts are those of `tar -C %s -czf %s payload` and `mkdir -p %s && tar -C %s -xzf %s`. */
  lemma TarCommandTexts(dir: string, archive: string)
    ensures Render(Archive(dir, archive)) ==
      Join(["tar", "-C", ShellEscape(dir)] + ["-czf", ShellEscape(archive), "payload"])
    ensures Render(Extract(dir, archive)) ==
      Join(["mkdir", "-p", ShellEscape(dir)] + ["&&", "tar", "-C", ShellEscape(dir)] + ["-xzf", ShellEscape(archive)])
  {
    hide Render, Lit, Cmd, Esc, Oper, ChunkText, Join, Spelled, ShellEscape, Archive, Extract;
    ArchiveText(dir, archive);
    ExtractText(dir, archive);
  }

  lemma ArchiveParts(dir: string, archive: string)
    ensures Archive(dir, archive) == [Cmd("tar"), Lit("-C"), Esc(dir)] + [Lit("-czf"), Esc(archive), Lit("payload")]
  {
    hide Lit, Cmd, Esc, ChunkText, ShellEscape, GoodChunk, GoodLiteral, TokenOf;
  }

  lemma ArchiveText(dir: string, archive: string)
    ensures Render(Archive(dir, archive)) ==
      Join(["tar", "-C", ShellEscape(dir)] + ["-czf", ShellEscape(archive), "payload"])
  {
    hide Render, Lit, Cmd, Esc, ChunkText, Join, Spelled, ShellEscape;
    var tar, into := [Cmd("tar"), Lit("-C"), Esc(dir)], [Lit("-czf"), Esc(archive), Lit("payload")];
    SpelledThree(Cmd("tar"), Lit("-C"), Esc(dir), "tar", "-C", ShellEscape(dir));
    SpelledThree(Lit("-czf"), Esc(archive), Lit("payload"), "-czf", ShellEscape(archive), "payload");
    SpelledConcat(tar, into);
    RenderIsJoin(tar + into);
    ArchiveParts(dir, archive);
  }

  lemma ExtractParts(dir: string, archive: string)
    ensures Extract(dir, archive) ==
      [Cmd("mkdir"), Lit("-p"), Esc(dir)] + [Oper("&&"), Lit("tar"), Lit("-C"), Esc(dir)] + [Lit("-xzf"), Esc(archive)]
  {
    hide Lit, Cmd, Esc, Oper, ChunkText, ShellEscape, GoodChunk, GoodLiteral, TokenOf;
  }

  lemma ExtractText(dir: string, archive: string)
    ensures Render(Extract(dir, archive)) ==
      Join(["mkdir", "-p", ShellEscape(dir)] + ["&&", "tar", "-C", ShellEscape(dir)] + ["-xzf", ShellEscape(archive)])
  {
    hide Render, Lit, Cmd, Esc, Oper, ChunkText, Join, Spelled, ShellEscape;
    var make, tar := [Cmd("mkdir"), Lit("-p"), Esc(dir)], [Oper("&&"), Lit("tar"), Lit("-C"), Esc(dir)];
    var from := [Lit("-xzf"), Esc(archive)];
    SpelledThree(Cmd("mkdir"), Lit("-p"), Esc(dir), "mkdir", "-p", ShellEscape(dir));
    SpelledFour(Oper("&&"), Lit("tar"), Lit("-C"), Esc(dir), "&&", "tar", "-C", ShellEscape(dir));
    SpelledTwo(Lit("-xzf"), Esc(archive), "-xzf", ShellEscape(archive));
    SpelledConcat(make, tar);
    SpelledConcat(make + tar, from);
    RenderIsJoin(make + tar + from);
    ExtractParts(dir, archive);
  }

  lemma TarCommandsRead(dir: string, archive: string)
    requires NoNul(dir) && NoNul(archive)
    ensures Tokenize(Render(Archive(dir, archive))) ==
      Some([Word("tar"), Word("-C"), Word(dir), Word("-czf"), Word(archive), Word("payload")])
    ensures Tokenize(Render(Extract(dir, archive))) ==
      Some([Word("mkdir"), Word("-p"), Word(dir), Operator("&&"),
            Word("tar"), Word("-C"), Word(dir), Word("-xzf"), Word(archive)])
  {
    hide Tokenize, Render, Lit, Cmd, Esc, Oper, GoodChunk;
    hide GoodLiteral, AllPlain, NoNul, ShellEscape, ChunkText, TokenOf;
    FileLiterals();
    TarLiterals();
    RenderRoundTrip(Archive(dir, archive));
    RenderRoundTrip(Extract(dir, archive));
    assert Tokens(Archive(dir, archive)) ==
      [Word("tar"), Word("-C"), Word(dir), Word("-czf"), Word(archive), Word("payload")];
    assert Tokens(Extract(dir, archive)) ==
      [Word("mkdir"), Word("-p"), Word(dir), Operator("&&"),
       Word("tar"), Word("-C"), Word(dir), Word("-xzf"), Word(archive)];
  }

  // ---------------------------------------------------------------- probe and hash

  function Probe(path: string): seq<Part> {
    [Cmd("if"), Lit("["), Lit("-d"), Esc(path), Lit("]"), Glued(Oper(";")),
     Lit("then"), Lit("echo"), Lit("dir"), Glued(Oper(";")),
     Lit("else"), Lit("echo"), Lit("file"), Glued(Oper(";")), Lit("fi")]
  }

  function HashFile(path: string): seq<Part> {
    [Cmd("sha256sum"), Esc(path), Oper("|"), Lit("awk"), Esc("{print $1}")]
  }

  function HashDirectory(path: string): seq<Part> {
    [Cmd("find"), Esc(path), Lit("-type"), Lit("f"), Oper("|"), Lit("LC_ALL=C"), Lit("sort"), Oper("|"),
     Lit("xargs"), Lit("-r"), Lit("sha256sum"), Descriptor('2'), Glued(Oper(">")), Glued(Lit("/dev/null")),
     Oper("|"), Lit("sha256sum"), Oper("|"), Lit("awk"), Esc("{print $1}")]
  }

  lemma ProbeParts(path: string)
    ensures Probe(path) ==
      [Cmd("if"), Lit("[")] + [Lit("-d"), Esc(path), Lit("]"), Glued(Oper(";"))] +
      [Lit("then"), Lit("echo"), Lit("dir"), Glued(Oper(";"))] +
      [Lit("else"), Lit("echo"), Lit("file"), Glued(Oper(";"))] + [Lit("fi")]
  {
    hide Lit, Cmd, Esc, Oper, Glued, ChunkText, ShellEscape, GoodChunk, GoodLiteral, TokenOf;
  }

  /** The text is that of `if [ -d %s ]; then echo dir; else echo file; fi`. */
  lemma ProbeText(path: string)
    ensures Render(Probe(path)) ==
      Join(["if", "["] + ["-d", ShellEscape(path), "]" + ";"] + ["then", "echo", "dir" + ";"] +
           ["else", "echo", "file" + ";"] + ["fi"])
  {
    hide Render, Lit, Cmd, Esc, Oper, ChunkText, Join, Spelled, ShellEscape, Glued;
    var semi := Glued(Oper(";"));
    var test, target := [Cmd("if"), Lit("[")], [Lit("-d"), Esc(path), Lit("]"), semi];
    var yes, no := [Lit("then"), Lit("echo"), Lit("dir"), semi], [Lit("else"), Lit("echo"), Lit("file"), semi];
    SpelledTwo(Cmd("if"), Lit("["), "if", "[");
    ClauseText(Lit("-d"), Esc(path), Lit("]"), "-d", ShellEscape(path), "]");
    ClauseText(Lit("then"), Lit("echo"), Lit("dir"), "then", "echo", "dir");
    ClauseText(Lit("else"), Lit("echo"), Lit("file"), "else", "echo", "file");
    SpelledOne(Lit("fi"), "fi");
    SpelledConcat(test, target);
    SpelledConcat(test + target, yes);
    SpelledConcat(test + target + yes, no);
    SpelledConcat(test + target + yes + no, [Lit("fi")]);
    RenderIsJoin(test + target + yes + no + [Lit("fi")]);
    ProbeParts(path);
  }

  /** Three words and a semicolon directly behind the last of them. */
  lemma ClauseText(a: Part, b: Part, c: Part, x: string, y: string, z: string)
    requires ChunkText(a.chunk) == x && ChunkText(b.chunk) == y && ChunkText(c.chunk) == z && b.blank && c.blank
    ensures Spelled([a, b, c, Glued(Oper(";"))]) == [x, y, z + ";"]
  {
    hide ChunkText, Spelled;
    SpelledThree(a, b, c, x, y, z);
    SpelledSnoc([a, b, c], Glued(Oper(";")));
    assert [a, b, c] + [Glued(Oper(";"))] == [a, b, c, Glued(Oper(";"))];
  }

  lemma HashFileParts(path: string)
    ensures HashFile(path) == [Cmd("sha256sum"), Esc(path)] + [Oper("|"), Lit("awk"), Esc("{print $1}")]
  {
    hide Lit, Cmd, Esc, Oper, ChunkText, ShellEscape, GoodChunk, GoodLiteral, TokenOf;
  }

  /** The text is that of `sha256sum %s | awk '{print $1}'`. */
  lemma HashFileText(path: string)
    ensures Render(HashFile(path)) == Join(["sha256sum", ShellEscape(path)] + ["|", "awk", "'" + "{print $1}" + "'"])
  {
    hide Render, Lit, Cmd, Esc, Oper, ChunkText, Join, Spelled, ShellEscape, HashFile, TokenOf, GoodChunk, GoodLiteral;
    var sum, awk := [Cmd("sha256sum"), Esc(path)], [Oper("|"), Lit("awk"), Esc("{print $1}")];
    AwkProgram();
    SpelledTwo(Cmd("sha256sum"), Esc(path), "sha256sum", ShellEscape(path));
    SpelledThree(Oper("|"), Lit("awk"), Esc("{print $1}"), "|", "awk", ShellEscape("{print $1}"));
    SpelledConcat(sum, awk);
    RenderIsJoin(sum + awk);
    HashFileParts(path);
  }

  lemma AwkProgram()
    ensures ShellEscape("{print $1}") == "'" + "{print $1}" + "'"
  {
    ReplaceNothing("{print $1}", '\'', "'\\''");
  }

  lemma HashDirectoryParts(path: string)
    ensures HashDirectory(path) ==
      [Cmd("find"), Esc(path), Lit("-type"), Lit("f")] + [Oper("|"), Lit("LC_ALL=C"), Lit("sort")] +
      [Oper("|"), Lit("xargs"), Lit("-r"), Lit("sha256sum")] +
      [Descriptor('2'), Glued(Oper(">")), Glued(Lit("/dev/null"))] +
      [Oper("|"), Lit("sha256sum")] + [Oper("|"), Lit("awk"), Esc("{print $1}")]
  {
    hide Lit, Cmd, Esc, Oper, Descriptor, Glued, ChunkText, ShellEscape, GoodChunk, GoodLiteral, TokenOf;
  }

  /** The text is that of the five stages of the directory hash, with the redirection `2>/dev/null`. */
  lemma HashDirectoryText(path: string)
    ensures Render(HashDirectory(path)) ==
      Join(["find", ShellEscape(path), "-type", "f"] + ["|", "LC_ALL=C", "sort"] +
           ["|", "xargs", "-r", "sha256sum"] + ["2" + ">" + "/dev/null"] +
           ["|", "sha256sum"] + ["|", "awk", "'" + "{print $1}" + "'"])
  {
    hide Render, Lit, Cmd, Esc, Oper, Descriptor, ChunkText, Join, Spelled, ShellEscape, Glued;
    var find := [Cmd("find"), Esc(path), Lit("-type"), Lit("f")];
    var sort := [Oper("|"), Lit("LC_ALL=C"), Lit("sort")];
    var sums := [Oper("|"), Lit("xargs"), Lit("-r"), Lit("sha256sum")];
    var discard := [Descriptor('2'), Glued(Oper(">")), Glued(Lit("/dev/null"))];
    var total, awk := [Oper("|"), Lit("sha256sum")], [Oper("|"), Lit("awk"), Esc("{print $1}")];
    StageTexts(path);
    AwkProgram();
    SpelledConcat(find, sort);
    SpelledConcat(find + sort, sums);
    SpelledConcat(find + sort + sums, discard);
    SpelledConcat(find + sort + sums + discard, total);
    SpelledConcat(find + sort + sums + discard + total, awk);
    RenderIsJoin(find + sort + sums + discard + total + awk);
    HashDirectoryParts(path);
  }

  lemma StageTexts(path: string)
    ensures Spelled([Cmd("find"), Esc(path), Lit("-type"), Lit("f")]) == ["find", ShellEscape(path), "-type", "f"]
    ensures Spelled([Oper("|"), Lit("LC_ALL=C"), Lit("sort")]) == ["|", "LC_ALL=C", "sort"]
    ensures Spelled([Oper("|"), Lit("xargs"), Lit("-r"), Lit("sha256sum")]) == ["|", "xargs", "-r", "sha256sum"]
    ensures Spelled([Descriptor('2'), Glued(Oper(">")), Glued(Lit("/dev/null"))]) == ["2" + ">" + "/dev/null"]
    ensures Spelled([Oper("|"), Lit("sha256sum")]) == ["|", "sha256sum"]
    ensures Spelled([Oper("|"), Lit("awk"), Esc("{print $1}")]) == ["|", "awk", ShellEscape("{print $1}")]
  {
    hide Lit, Cmd, Esc, Oper, Descriptor, ChunkText, Spelled, ShellEscape, Glued;
    SpelledFour(Cmd("find"), Esc(path), Lit("-type"), Lit("f"), "find", ShellEscape(path), "-type", "f");
    SpelledThree(Oper("|"), Lit("LC_ALL=C"), Lit("sort"), "|", "LC_ALL=C", "sort");
    SpelledFour(Oper("|"), Lit("xargs"), Lit("-r"), Lit("sha256sum"), "|", "xargs", "-r", "sha256sum");
    DiscardText();
    SpelledTwo(Oper("|"), Lit("sha256sum"), "|", "sha256sum");
    SpelledThree(Oper("|"), Lit("awk"), Esc("{print $1}"), "|", "awk", ShellEscape("{print $1}"));
  }

  lemma DiscardText()
    ensures Spelled([Descriptor('2'), Glued(Oper(">")), Glued(Lit("/dev/null"))]) == ["2" + ">" + "/dev/null"]
  {
    hide Lit, Oper, Descriptor, ChunkText, Spelled;
    var d, g, n := Descriptor('2'), Glued(Oper(">")), Glued(Lit("/dev/null"));
    SpelledOne(d, "2");
    SpelledSnoc([d], g);
    SpelledSnoc([d, g], n);
    assert [d] + [g] == [d, g] && [d, g] + [n] == [d, g, n];
  }

  /** The probe tests exactly the payload path. */
  lemma ProbeReads(path: string)
    requires NoNul(path)
    ensures Tokenize(Render(Probe(path))) ==
      Some([Word("if"), Word("["), Word("-d"), Word(path), Word("]"), Operator(";"),
            Word("then"), Word("echo"), Word("dir"), Operator(";"),
            Word("else"), Word("echo"), Word("file"), Operator(";"), Word("fi")])
  {
    hide Tokenize, Render, Lit, Cmd, Esc, Oper, Descriptor, GoodChunk;
    hide GoodLiteral, AllPlain, NoNul, ShellEscape, ChunkText, TokenOf;
    ProbeLiterals();
    RenderRoundTrip(Probe(path));
    assert Tokens(Probe(path)) ==
      [Word("if"), Word("["), Word("-d"), Word(path), Word("]"), Operator(";"),
       Word("then"), Word("echo"), Word("dir"), Operator(";"),
       Word("else"), Word("echo"), Word("file"), Operator(";"), Word("fi")];
  }

  /** Both hash pipelines hash exactly that path, and the awk program reaches awk unexpanded. */
  lemma HashFileReads(path: string)
    requires NoNul(path)
    ensures Tokenize(Render(HashFile(path))) ==
      Some([Word("sha256sum"), Word(path), Operator("|"), Word("awk"), Word("{print $1}")])
  {
    hide Tokenize, Render, Lit, Cmd, Esc, Oper, Descriptor, GoodChunk;
    hide GoodLiteral, AllPlain, NoNul, ShellEscape, ChunkText, TokenOf;
    PipelineLiterals();
    RenderRoundTrip(HashFile(path));
    assert Tokens(HashFile(path)) == [Word("sha256sum"), Word(path), Operator("|"), Word("awk"), Word("{print $1}")];
  }

  lemma HashDirectoryReads(path: string)
    requires NoNul(path)
    ensures Tokenize(Render(HashDirectory(path))) ==
      Some([Word("find"), Word(path), Word("-type"), Word("f"), Operator("|"),
            Word("LC_ALL=C"), Word("sort"), Operator("|"),
            Word("xargs"), Word("-r"), Word("sha256sum"), IoNumber(['2']), Operator(">"), Word("/dev/null"),
            Operator("|"), Word("sha256sum"), Operator("|"), Word("awk"), Word("{print $1}")])
  {
    hide Tokenize, Render, Lit, Cmd, Esc, Oper, Descriptor, GoodChunk;
    hide GoodLiteral, AllPlain, NoNul, ShellEscape, ChunkText, TokenOf;
    HashLiterals();
    XargsLiterals();
    PipelineLiterals();
    RenderRoundTrip(HashDirectory(path));
    assert Tokens(HashDirectory(path)) ==
      [Word("find"), Word(path), Word("-type"), Word("f"), Operator("|"), Word("LC_ALL=C"), Word("sort"), Operator("|"),
       Word("xargs"), Word("-r"), Word("sha256sum"), IoNumber(['2']), Operator(">"), Word("/dev/null"), Operator("|"),
       Word("sha256sum"), Operator("|"), Word("awk"), Word("{print $1}")];
  }

  // ---------------------------------------------------------------- an item's command lines

  /** Where a payload lies in its staging directory, before and after it is packed. */
  function PayloadPath(staging: string): string { staging + "/payload" }

  function TarballPath(staging: string): string { staging + "/payload.tar.gz" }

  /** What a backup of an item makes the remote shell do between making and removing its staging directory: docker
      copies the configured path of the configured container into it, that copy is probed and hashed, and tar packs
      it there. */
  lemma BackupCommandsRead(item: BackupItem)
    requires NoNul(item.containerName) && NoNul(item.containerPath)
    ensures var s := StagingPath(item.id);
      var dir := "/tmp/pterobackup-" + SanitizeName(item.id);
      var payload, tarball := Word(dir + "/payload"), Word(dir + "/payload.tar.gz");
      && Tokenize(Render(CopyOut(item.containerName, item.containerPath, PayloadPath(s)))) ==
         Some([Word("docker"), Word("cp"), Word(item.containerName + ":" + item.containerPath), payload])
      && Tokenize(Render(Probe(PayloadPath(s)))) ==
         Some([Word("if"), Word("["), Word("-d"), payload, Word("]"), Operator(";"),
               Word("then"), Word("echo"), Word("dir"), Operator(";"),
               Word("else"), Word("echo"), Word("file"), Operator(";"), Word("fi")])
      && Tokenize(Render(HashFile(PayloadPath(s)))) ==
         Some([Word("sha256sum"), payload, Operator("|"), Word("awk"), Word("{print $1}")])
      && Tokenize(Render(HashDirectory(PayloadPath(s)))) ==
         Some([Word("find"), payload, Word("-type"), Word("f"), Operator("|"),
               Word("LC_ALL=C"), Word("sort"), Operator("|"),
               Word("xargs"), Word("-r"), Word("sha256sum"), IoNumber(['2']), Operator(">"), Word("/dev/null"),
               Operator("|"), Word("sha256sum"), Operator("|"), Word("awk"), Word("{print $1}")])
      && Tokenize(Render(Archive(s, TarballPath(s)))) ==
         Some([Word("tar"), Word("-C"), Word(dir), Word("-czf"), tarball, Word("payload")])
  {
    hide Tokenize, Render, CopyOut, Probe, HashFile, HashDirectory, Archive, SanitizeName;
    var s := StagingPath(item.id);
    StagingShape(item.id);
    StagingHasNoNul(item.id);
    DockerCommandsRead(PayloadPath(s), item.containerName, item.containerPath);
    ProbeReads(PayloadPath(s));
    HashFileReads(PayloadPath(s));
    HashDirectoryReads(PayloadPath(s));
    TarCommandsRead(s, TarballPath(s));
  }

  lemma StagingHasNoNul(id: string)
    ensures NoNul(StagingPath(id)) && NoNul(RestoreStagingPath(id))
  {
    hide SanitizeName;
    SanitizeNameSafe(id);
  }

  /** The same for a restore of the archive called `name`, uploaded next to where it is unpacked: a packed payload is
      unpacked below its own staging directory and its contents are copied, a plain file is copied as it is. */
  lemma RestoreCommandsRead(item: BackupItem, name: string)
    requires NoNul(item.containerName) && NoNul(item.containerPath) && NoNul(name)
    ensures var s := RestoreStagingPath(item.id);
      var dir := "/tmp/pterobackup-restore-" + SanitizeName(item.id);
      var uploaded, target := s + "/" + name, Word(item.containerName + ":" + item.containerPath);
      && Tokenize(Render(Extract(PayloadPath(s), uploaded))) ==
         Some([Word("mkdir"), Word("-p"), Word(dir + "/payload"), Operator("&&"),
               Word("tar"), Word("-C"), Word(dir + "/payload"), Word("-xzf"), Word(dir + "/" + name)])
      && Tokenize(Render(CopyInDirectory(PayloadPath(PayloadPath(s)), item.containerName, item.containerPath))) ==
         Some([Word("docker"), Word("cp"), Word(dir + "/payload" + "/payload" + "/."), target])
      && Tokenize(Render(CopyInFile(uploaded, item.containerName, item.containerPath))) ==
         Some([Word("docker"), Word("cp"), Word(dir + "/" + name), target])
  {
    hide Tokenize, Render, CopyInFile, CopyInDirectory, Extract, SanitizeName;
    var s := RestoreStagingPath(item.id);
    StagingShape(item.id);
    StagingHasNoNul(item.id);
    TarCommandsRead(PayloadPath(s), s + "/" + name);
    DockerCommandsRead(PayloadPath(PayloadPath(s)), item.containerName, item.containerPath);
    DockerCommandsRead(s + "/" + name, item.containerName, item.containerPath);
  }
}
