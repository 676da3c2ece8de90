/**
 * remove_dotslash of sys/tarfs.c: a path is normalised by moving back and forth in the output buffer.
 * The specification is a stack of components.
 */
module Paths {
  import opened CStrings

  /* ---------- the specification ---------- */

  function FirstSlash(s: string): (k: nat)
    ensures k <= |s| && (forall i | 0 <= i < k :: s[i] != '/') && (k < |s| ==> s[k] == '/')
  {
    if s == "" || s[0] == '/' then 0 else 1 + FirstSlash(s[1..])
  }

  // The components between slashes; there is one more than slashes.
  function Split(s: string): (components: seq<string>)
    ensures |components| > 0
    decreases |s|
  {
    var k := FirstSlash(s);
    if k == |s| then [s] else [s[..k]] + Split(s[k + 1..])
  }

  predicate IsName(c: string) { c != "" && c != "." && c != ".." }

  predicate HasNoSlash(c: string) { forall i | 0 <= i < |c| :: c[i] != '/' }

  // Empty components and "." are dropped, ".." pops, and the root absorbs it.
  function Push(stack: seq<string>, c: string): seq<string> {
    if c == "" || c == "." then stack
    else if c == ".." then (if stack == [] then [] else stack[..|stack| - 1])
    else stack + [c]
  }

  function Resolve(stack: seq<string>, components: seq<string>): seq<string>
    decreases |components|
  {
    if components == [] then stack else Resolve(Push(stack, components[0]), components[1..])
  }

  // A directory as text: every component is followed by a slash.
  function Dir(stack: seq<string>): (s: string)
    ensures |s| > 0 && s[0] == '/' && s[|s| - 1] == '/'
    ensures stack != [] ==> |s| > 1
  {
    if stack == [] then "/" else Dir(stack[..|stack| - 1]) + stack[|stack| - 1] + "/"
  }

  function Last(components: seq<string>): string
    requires |components| > 0
  {
    components[|components| - 1]
  }

  // The last slash is left out when the path ends in a name, unless d asks for it.
  function Render(stack: seq<string>, bare: bool): string {
    if bare then Dir(stack)[..|Dir(stack)| - 1] else Dir(stack)
  }

  predicate IsAbsolute(s: string) { s != "" && s[0] == '/' }

  function Start(home: seq<string>, s: string): seq<string> { if IsAbsolute(s) then [] else home }

  // What remove_dotslash(s, ..., d) leaves in its buffer when the current directory is `home`.
  function Normalised(home: seq<string>, s: string, d: int): string {
    Render(Resolve(Start(home, s), Split(s)), IsName(Last(Split(s))) && d != 1)
  }

  /* ---------- the steps of the loop ---------- */

  predicate AreNames(stack: seq<string>) { forall i | 0 <= i < |stack| :: IsName(stack[i]) && HasNoSlash(stack[i]) }

  lemma SplitNext(s: string, p: nat, k: nat)
    requires p <= |s| && k == FirstSlash(s[p..])
    ensures p + k <= |s|
    ensures p + k < |s| ==> Split(s[p..]) == [s[p..p + k]] + Split(s[p + k + 1..])
    ensures p + k == |s| ==> Split(s[p..]) == [s[p..p + k]]
  {
    if p + k < |s| {
      assert s[p..][..k] == s[p..p + k] && s[p..][k + 1..] == s[p + k + 1..];
    } else {
      assert s[p..p + k] == s[p..];
    }
  }

  // What is left to read at p, done from `stack`, gives the result; `bare`: the path has ended in a name.
  ghost predicate IsStage(start: seq<string>, s: string, p: nat, stack: seq<string>, bare: bool) {
    && p <= |s| && AreNames(stack)
    && Resolve(stack, Split(s[p..])) == Resolve(start, Split(s))
    && (bare ==> p == |s| && stack != [])
    && (IsName(Last(Split(s))) <==> bare || IsName(Last(Split(s[p..]))))
  }

  lemma FirstStage(start: seq<string>, s: string)
    requires AreNames(start)
    ensures IsStage(start, s, 0, start, false)
  {
    assert s[0..] == s;
  }

  lemma ComponentHasNoSlash(s: string, p: nat, k: nat)
    requires p <= |s| && k == FirstSlash(s[p..]) && p + k <= |s|
    ensures HasNoSlash(s[p..p + k])
  {
    assert forall i | 0 <= i < k :: s[p..p + k][i] == s[p..][i];
  }

  lemma PushKeepsNames(stack: seq<string>, c: string)
    requires AreNames(stack) && HasNoSlash(c)
    ensures AreNames(Push(stack, c))
  {
  }

  // A component that ends in a slash
  lemma NextStage(start: seq<string>, s: string, p: nat, stack: seq<string>, k: nat, c: string, q: nat)
    requires IsStage(start, s, p, stack, false) && k == FirstSlash(s[p..]) && p + k < |s| && c == s[p..p + k]
    requires q == p + k + 1
    ensures IsStage(start, s, q, Push(stack, c), false)
  {
    SplitNext(s, p, k);
    ComponentHasNoSlash(s, p, k);
    PushKeepsNames(stack, c);
  }

  // The last component
  lemma EndStage(start: seq<string>, s: string, p: nat, stack: seq<string>, k: nat, c: string)
    requires IsStage(start, s, p, stack, false) && k == FirstSlash(s[p..]) && p + k == |s| && c == s[p..p + k]
    ensures IsStage(start, s, |s|, Push(stack, c), IsName(c))
  {
    SplitNext(s, p, k);
    ComponentHasNoSlash(s, p, k);
    PushKeepsNames(stack, c);
    ResolveOne(stack, c);
    ResolveOne(Push(stack, c), "");
    assert s[|s|..] == "" && Split("") == [""];
  }

  lemma ResolveOne(stack: seq<string>, c: string)
    ensures Resolve(stack, [c]) == Push(stack, c)
  {
  }

  lemma LastStage(home: seq<string>, s: string, stack: seq<string>, bare: bool, d: int)
    requires IsStage(Start(home, s), s, |s|, stack, bare)
    ensures Normalised(home, s, d) == Render(stack, bare && d != 1)
  {
    assert s[|s|..] == "";
    assert Split("") == [""];
    ResolveOne(stack, "");
  }

  /* ---------- the code ---------- */

  // The buffer holds this text up to position o.
  ghost predicate Holds(buffer: seq<char>, o: nat, text: string) {
    o == |text| <= |buffer| && buffer[..o] == text
  }

  // The loop of remove_dotslash has read up to p and written up to o; it started with `base` characters
  // of output.
  ghost predicate IsProgress(start: seq<string>, s: string, p: nat, stack: seq<string>, bare: bool, buffer: seq<char>,
                             o: nat, base: nat) {
    && IsStage(start, s, p, stack, bare)
    && Holds(buffer, o, Render(stack, bare))
    && o <= base + p
  }

  lemma MakeProgress(start: seq<string>, s: string, p: nat, stack: seq<string>, bare: bool, buffer: seq<char>, o: nat,
                     base: nat, text: string)
    requires IsStage(start, s, p, stack, bare) && Holds(buffer, o, text) && text == Render(stack, bare) && o <= base + p
    ensures IsProgress(start, s, p, stack, bare, buffer, o, base)
  {
  }

  lemma UseProgress(start: seq<string>, s: string, p: nat, stack: seq<string>, buffer: seq<char>, o: nat, base: nat)
    requires IsProgress(start, s, p, stack, false, buffer, o, base)
    ensures IsStage(start, s, p, stack, false) && Holds(buffer, o, Dir(stack)) && o <= base + p && AreNames(stack)
  {
  }

  // get_between_2slashes
  method GetBetween2Slashes(src: array<char>, p: nat, temp: array<char>, ghost s: string) returns (ghost c: string)
    requires IsCString(src[..], s) && p < |s| && temp != src && FirstSlash(s[p..]) < temp.Length
    modifies temp
    ensures c == s[p..p + FirstSlash(s[p..])] && IsCString(temp[..], c)
  {
    var input, output := p, 0;
    ghost var k := FirstSlash(s[p..]);
    CStringAt(src[..], s, p);
    if src[input] == '/' {
      temp[output] := '\0';
    }
    while src[input] != '\0' && src[input] != '/'
      invariant output <= k && input == p + output && input <= |s|
      invariant temp[..output] == s[p..input]
      invariant input < src.Length && (src[input] == '\0' <==> input == |s|)
      invariant input < |s| ==> src[input] == s[p..][output]
      decreases |s| - input
    {
      CStringAt(src[..], s, input);
      CStringAt(src[..], s, input + 1);
      assert s[p..input + 1] == s[p..input] + [src[input]];
      temp[output] := src[input];
      output := output + 1;
      input := input + 1;
    }
    temp[output] := '\0';
    c := s[p..p + k];
    assert output == k;
    assert temp[..][..|c|] == c;
  }

  // The bytewise copy of a name to the end of the output
  method CopyName(temp: array<char>, dest: array<char>, o: nat, ghost text: string, ghost c: string)
    returns (output: nat)
    requires IsCString(temp[..], c) && Holds(dest[..], o, text) && temp != dest && o + |c| < dest.Length
    modifies dest
    ensures output == o + |c| && Holds(dest[..], output, text + c)
  {
    var i := 0;
    output := o;
    CStringAt(temp[..], c, 0);
    while temp[i] != '\0'
      invariant i <= |c| && output == o + i && i < temp.Length && (temp[i] == '\0' <==> i == |c|)
      invariant dest[..output] == text + c[..i]
      decreases |c| - i
    {
      CStringAt(temp[..], c, i);
      CStringAt(temp[..], c, i + 1);
      dest[output] := temp[i];
      output := output + 1;
      i := i + 1;
    }
    assert c[..i] == c;
  }

  lemma DirPops(stack: seq<string>)
    requires stack != [] && AreNames(stack)
    ensures var under, name := Dir(stack[..|stack| - 1]), stack[|stack| - 1];
            && Dir(stack) == under + name + "/" && |Dir(stack)| == |under| + |name| + 1
            && Dir(stack)[..|under|] == under && Dir(stack)[|under| - 1] == '/'
            && forall i | |under| <= i < |Dir(stack)| - 1 :: Dir(stack)[i] != '/'
  {
  }

  // The backward scan of ".." from the slash before position o: to behind the slash before that one
  method ScanBack(dest: array<char>, o: nat) returns (output: nat)
    requires 2 <= o <= dest.Length && dest[0] == '/'
    ensures 0 < output < o && dest[output - 1] == '/' && forall i | output <= i < o - 1 :: dest[i] != '/'
  {
    output := o - 2;
    while dest[output] != '/'
      invariant output < o - 1
      invariant forall i | output < i < o - 1 :: dest[i] != '/'
      decreases output
    {
      output := output - 1;
    }
    output := output + 1;
  }

  // That slash stands before the last component.
  lemma ScanPops(stack: seq<string>, buffer: seq<char>, o: nat, output: nat)
    requires stack != [] && AreNames(stack) && Holds(buffer, o, Dir(stack))
    requires 0 < output < o && buffer[output - 1] == '/' && forall i | output <= i < o - 1 :: buffer[i] != '/'
    ensures Holds(buffer, output, Dir(stack[..|stack| - 1]))
  {
    var under := Dir(stack[..|stack| - 1]);
    DirPops(stack);
    assert buffer[output - 1] == Dir(stack)[output - 1];
    assert buffer[|under| - 1] == Dir(stack)[|under| - 1];
    assert output == |under|;
    assert buffer[..output] == Dir(stack)[..output];
  }

  // The branch of "..": back to behind the slash before the last component, inside the buffer
  method Backtrack(dest: array<char>, o: nat, ghost stack: seq<string>) returns (output: nat)
    requires Holds(dest[..], o, Dir(stack)) && AreNames(stack)
    ensures Holds(dest[..], output, Dir(Push(stack, ".."))) && output <= o
    ensures stack == [] ==> output == o == 1
    ensures stack != [] ==>
              0 < output < o && dest[output - 1] == '/' && forall i | output <= i < o - 1 :: dest[i] != '/'
  {
    assert dest[..o][0] == Dir(stack)[0];
    output := o - 1;
    if output == 0 {
      output := output + 1;
    } else {
      output := ScanBack(dest, o);
      ScanPops(stack, dest[..], o, output);
    }
  }

  // What follows a component is a slash, unless the path ends there.
  lemma AfterComponent(bytes: seq<char>, s: string, p: nat, c: string)
    requires IsCString(bytes, s) && p < |s| && c == s[p..p + FirstSlash(s[p..])]
    ensures p + |c| <= |s| < |bytes| && (bytes[p + |c|] == '/' <==> p + |c| < |s|)
    ensures p + |c| == |s| ==> bytes[p + |c|] == '\0'
  {
    var k := FirstSlash(s[p..]);
    if p + k < |s| {
      assert s[p..][k] == s[p + k];
      CStringAt(bytes, s, p + k);
    }
  }

  // A component that adds no name
  lemma ShortStage(start: seq<string>, s: string, p: nat, stack: seq<string>, c: string, input: nat)
    requires IsStage(start, s, p, stack, false) && p < |s| && c == s[p..p + FirstSlash(s[p..])] && !IsName(c)
    requires input == if p + |c| < |s| then p + |c| + 1 else |s|
    ensures IsStage(start, s, input, Push(stack, c), false)
  {
    var k := FirstSlash(s[p..]);
    if p + k < |s| {
      NextStage(start, s, p, stack, k, c, input);
    } else {
      EndStage(start, s, p, stack, k, c);
    }
  }

  // A name, with or without a slash behind it
  lemma NameStage(start: seq<string>, s: string, p: nat, stack: seq<string>, c: string, input: nat, bare: bool)
    requires IsStage(start, s, p, stack, false) && p < |s| && c == s[p..p + FirstSlash(s[p..])] && IsName(c)
    requires bare == (p + |c| == |s|)
    requires input == if bare then |s| else p + |c| + 1
    ensures IsStage(start, s, input, Push(stack, c), bare)
  {
    var k := FirstSlash(s[p..]);
    if bare {
      EndStage(start, s, p, stack, k, c);
    } else {
      NextStage(start, s, p, stack, k, c, input);
    }
  }

  lemma NameText(stack: seq<string>, c: string, bare: bool)
    requires IsName(c)
    ensures Render(Push(stack, c), bare) == if bare then Dir(stack) + c else Dir(stack) + c + "/"
  {
    assert Push(stack, c)[..|stack|] == stack;
    assert (Dir(stack) + c + "/")[..|Dir(stack) + c|] == Dir(stack) + c;
  }

  // The slashes behind a slash
  method SkipSlashes(src: array<char>, p: nat, ghost start: seq<string>, ghost s: string, ghost stack: seq<string>,
                     ghost bare: bool)
    returns (input: nat)
    requires IsCString(src[..], s) && IsStage(start, s, p, stack, bare) && p <= |s|
    ensures IsStage(start, s, input, stack, bare) && p <= input <= |s|
  {
    input := p;
    CStringAt(src[..], s, p);
    while src[input] == '/'
      invariant p <= input <= |s| < src.Length && (input == |s| ==> src[input] == '\0')
      invariant IsStage(start, s, input, stack, bare)
      decreases |s| - input
    {
      CStringAt(src[..], s, input);
      CStringAt(src[..], s, input + 1);
      SlashStage(start, s, input, stack, bare);
      input := input + 1;
    }
  }

  lemma SlashStage(start: seq<string>, s: string, p: nat, stack: seq<string>, bare: bool)
    requires IsStage(start, s, p, stack, bare) && p < |s| && s[p] == '/'
    ensures IsStage(start, s, p + 1, stack, bare)
  {
    assert s[p..][0] == '/';
    ShortStage(start, s, p, stack, "", p + 1);
  }

  // A name and the slash behind it, if there is one, go to the end of the output.
  method AppendName(src: array<char>, p: nat, dest: array<char>, o: nat, temp: array<char>,
                    ghost s: string, ghost text: string, ghost c: string)
    returns (input: nat, output: nat, bare: bool)
    requires temp != dest && src != dest && o + |c| + 1 < dest.Length && Holds(dest[..], o, text)
    requires IsCString(src[..], s) && IsCString(temp[..], c) && p < |s| && c == s[p..p + FirstSlash(s[p..])]
    modifies dest
    ensures bare == (p + |c| == |s|) && p + |c| <= |s|
    ensures input == (if bare then |s| else p + |c| + 1) && output == o + (input - p)
    ensures Holds(dest[..], output, if bare then text + c else text + c + "/")
  {
    AfterComponent(src[..], s, p, c);
    output := CopyName(temp, dest, o, text, c);
    input := p + (output - o);
    bare := true;
    if src[input] == '/' {
      dest[output] := '/';
      output := output + 1;
      input := input + 1;
      bare := false;
    }
  }

  // The last branch of the loop
  method TakeName(src: array<char>, p: nat, dest: array<char>, o: nat, temp: array<char>,
                  ghost start: seq<string>, ghost s: string, ghost stack: seq<string>, ghost c: string)
    returns (input: nat, output: nat, ghost bare: bool)
    requires temp != dest && src != dest && o + |c| + 1 < dest.Length
    requires IsCString(src[..], s) && IsStage(start, s, p, stack, false) && Holds(dest[..], o, Dir(stack)) && p < |s|
    requires IsCString(temp[..], c) && c == s[p..p + FirstSlash(s[p..])] && IsName(c)
    modifies dest
    ensures IsStage(start, s, input, Push(stack, c), bare) && Holds(dest[..], output, Render(Push(stack, c), bare))
    ensures p < input <= |s| && output <= o + (input - p)
  {
    input, output, bare := AppendName(src, p, dest, o, temp, s, Dir(stack), c);
    NameText(stack, c, bare);
    NameStage(start, s, p, stack, c, input, bare);
    input := SkipSlashes(src, input, start, s, Push(stack, c), bare);
  }

  lemma Literals()
    ensures IsCString("\0", "") && IsCString(".\0", ".") && IsCString("..\0", "..")
  {
    assert ".\0"[..1] == "." && "..\0"[..2] == "..";
  }

  // Which branch of the loop this component takes
  method Classify(temp: array<char>, ghost c: string) returns (isDot: bool, isEmpty: bool, isDotDot: bool)
    requires IsCString(temp[..], c)
    ensures isDot == (c == ".") && isEmpty == (c == "") && isDotDot == (c == "..")
  {
    Literals();
    var dot := Strcmp(temp[..], ".\0", c, ".");
    var empty := Strcmp(temp[..], "\0", c, "");
    var dotDot := Strcmp(temp[..], "..\0", c, "..");
    isDot, isEmpty, isDotDot := dot == 0, empty == 0, dotDot == 0;
  }

  // The branches of the loop that add no name
  method TakeShort(src: array<char>, p: nat, dest: array<char>, o: nat, isDot: bool, isEmpty: bool,
                   ghost s: string, ghost stack: seq<string>, ghost c: string)
    returns (input: nat, output: nat)
    requires IsCString(src[..], s) && p < |s| && c == s[p..p + FirstSlash(s[p..])]
    requires Holds(dest[..], o, Dir(stack)) && AreNames(stack)
    requires isDot == (c == ".") && isEmpty == (c == "") && !IsName(c)
    ensures input == if p + |c| < |s| then p + |c| + 1 else |s|
    ensures Holds(dest[..], output, Dir(Push(stack, c))) && output <= o
  {
    AfterComponent(src[..], s, p, c);
    if isDot {
      input, output := if src[p + 1] == '/' then p + 2 else p + 1, o;
    } else if isEmpty {
      input, output := p + 1, o;
    } else {
      input := if src[p + 2] == '/' then p + 3 else p + 2;
      output := Backtrack(dest, o, stack);
    }
  }

  // One round of the loop
  method TakeComponent(src: array<char>, p: nat, dest: array<char>, o: nat, temp: array<char>,
                       ghost start: seq<string>, ghost s: string, ghost stack: seq<string>, ghost base: nat)
    returns (input: nat, output: nat, ghost now: seq<string>, ghost bare: bool)
    requires temp != dest && src != dest && temp != src && dest.Length >= base + |s| + 2
    requires IsCString(src[..], s) && IsProgress(start, s, p, stack, false, dest[..], o, base) && p < |s|
    requires FirstSlash(s[p..]) < temp.Length
    modifies dest, temp
    ensures IsProgress(start, s, input, now, bare, dest[..], output, base) && p < input <= |s|
  {
    ghost var c := GetBetween2Slashes(src, p, temp, s);
    AfterComponent(src[..], s, p, c);
    UseProgress(start, s, p, stack, dest[..], o, base);
    bare := false;
    now := Push(stack, c);
    var isDot, isEmpty, isDotDot := Classify(temp, c);
    if isDot || isEmpty || isDotDot {
      input, output := TakeShort(src, p, dest, o, isDot, isEmpty, s, stack, c);
      ShortStage(start, s, p, stack, c, input);
    } else {
      input, output, bare := TakeName(src, p, dest, o, temp, start, s, stack, c);
    }
    MakeProgress(start, s, input, now, bare, dest[..], output, base, Render(now, bare));
  }

  // The text of the current directory, with or without its last slash
  ghost predicate IsHome(text: string, home: seq<string>) {
    AreNames(home) && (text == Dir(home) || (home != [] && text + "/" == Dir(home)))
  }

  // The copy of the current directory in front of a relative path
  method CopyHome(cwd: array<char>, dest: array<char>, ghost text: string, ghost home: seq<string>)
    returns (output: nat)
    requires cwd != dest && IsCString(cwd[..], text) && IsHome(text, home) && dest.Length > |text| + 1
    modifies dest
    ensures Holds(dest[..], output, Dir(home)) && output <= |text| + 1
  {
    var i := 0;
    output := 0;
    CStringAt(cwd[..], text, 0);
    while cwd[i] != '\0'
      invariant i <= |text| && output == i && i < cwd.Length && (cwd[i] == '\0' <==> i == |text|)
      invariant dest[..output] == text[..i]
      decreases |text| - i
    {
      CStringAt(cwd[..], text, i);
      CStringAt(cwd[..], text, i + 1);
      dest[output] := cwd[i];
      output := output + 1;
      i := i + 1;
    }
    assert text[..i] == text;
    HomeEnds(text, home);
    assert dest[output - 1] == text[|text| - 1];
    if dest[output - 1] != '/' {
      dest[output] := '/';
      output := output + 1;
      assert dest[..output] == text + "/";
    }
  }

  lemma HomeEnds(text: string, home: seq<string>)
    requires IsHome(text, home)
    ensures text != "" && (text[|text| - 1] == '/' <==> text == Dir(home))
    ensures text[|text| - 1] != '/' ==> text + "/" == Dir(home)
  {
    if text != Dir(home) {
      DirPops(home);
      assert Dir(home)[|text| - 1] == text[|text| - 1];
    }
  }

  ghost predicate HasShortComponents(s: string) { forall p | 0 <= p <= |s| :: FirstSlash(s[p..]) < 256 }

  // What has to fit into the output buffer
  function RoomFor(s: string, home: seq<string>): nat { (if IsAbsolute(s) then 0 else |Dir(home)|) + |s| + 2 }

  lemma FirstSlashStage(s: string)
    requires IsAbsolute(s)
    ensures IsStage([], s, 1, [], false) && Dir([]) == "/"
  {
    FirstStage([], s);
    assert s[0..] == s;
    SlashStage([], s, 0, [], false);
  }

  // The text in front of the loop
  method Begin(src: array<char>, dest: array<char>, cwd: array<char>, ghost s: string, ghost home: seq<string>,
               ghost text: string)
    returns (input: nat, output: nat)
    requires src != dest && cwd != dest && IsCString(src[..], s) && dest.Length >= RoomFor(s, home)
    requires !IsAbsolute(s) ==> IsCString(cwd[..], text) && IsHome(text, home)
    modifies dest
    ensures var start := Start(home, s);
            IsProgress(start, s, input, start, false, dest[..], output, RoomFor(s, home) - |s| - 2) && input <= |s|
  {
    ghost var base := RoomFor(s, home) - |s| - 2;
    CStringAt(src[..], s, 0);
    if src[0] == '/' {
      dest[0] := '/';
      input, output := 1, 1;
      FirstSlashStage(s);
      MakeProgress([], s, 1, [], false, dest[..], 1, base, "/");
    } else {
      input := 0;
      HomeEnds(text, home);
      output := CopyHome(cwd, dest, text, home);
      FirstStage(home, s);
      MakeProgress(home, s, 0, home, false, dest[..], output, base, Dir(home));
    }
  }

  // The text behind the loop
  method Finish(dest: array<char>, d: int, output: nat, ghost stack: seq<string>, ghost bare: bool)
    requires Holds(dest[..], output, Render(stack, bare)) && output + 1 < dest.Length && AreNames(stack)
    requires bare ==> stack != []
    modifies dest
    ensures HasNoNul(Render(stack, bare && d != 1)) ==> IsCString(dest[..], Render(stack, bare && d != 1))
  {
    var end := output;
    RenderEnds(stack, bare);
    assert dest[end - 1] == Render(stack, bare)[end - 1];
    if d == 1 {
      if dest[end - 1] != '/' {
        dest[end] := '/';
        end := end + 1;
        assert dest[..end] == Render(stack, bare) + "/";
      }
    }
    assert dest[..end] == Render(stack, bare && d != 1);
    dest[end] := '\0';
    assert dest[..][..end] == Render(stack, bare && d != 1);
  }

  lemma RenderEnds(stack: seq<string>, bare: bool)
    requires AreNames(stack) && (bare ==> stack != [])
    ensures |Render(stack, bare)| > 0
    ensures Render(stack, bare)[|Render(stack, bare)| - 1] == '/' <==> !bare
    ensures bare ==> Render(stack, bare) + "/" == Dir(stack)
  {
    if bare {
      DirPops(stack);
    }
  }

  lemma UseStage(start: seq<string>, s: string, p: nat, stack: seq<string>, bare: bool, buffer: seq<char>, o: nat,
                 base: nat)
    requires IsProgress(start, s, p, stack, bare, buffer, o, base)
    ensures IsStage(start, s, p, stack, bare) && Holds(buffer, o, Render(stack, bare)) && o <= base + p
    ensures AreNames(stack) && (bare ==> stack != [] && p == |s|)
  {
  }

  method RemoveDotSlash(src: array<char>, dest: array<char>, cwd: array<char>, d: int,
                        ghost s: string, ghost home: seq<string>, ghost text: string)
    requires src != dest && cwd != dest && IsCString(src[..], s) && dest.Length >= RoomFor(s, home)
    requires HasShortComponents(s) && (!IsAbsolute(s) ==> IsCString(cwd[..], text) && IsHome(text, home))
    modifies dest
    ensures IsCString(dest[..], Normalised(home, s, d))
  {
    var temp := new char[256];
    temp[0] := '\0';
    var input, output := Begin(src, dest, cwd, s, home, text);
    ghost var start, base := Start(home, s), RoomFor(s, home) - |s| - 2;
    ghost var stack, bare := start, false;
    CStringAt(src[..], s, input);
    while src[input] != '\0'
      invariant input <= |s| < src.Length && (src[input] == '\0' <==> input == |s|)
      invariant IsProgress(start, s, input, stack, bare, dest[..], output, base)
      decreases |s| - input
    {
      UseStage(start, s, input, stack, bare, dest[..], output, base);
      input, output, stack, bare := TakeComponent(src, input, dest, output, temp, start, s, stack, base);
      CStringAt(src[..], s, input);
    }
    UseStage(start, s, input, stack, bare, dest[..], output, base);
    LastStage(home, s, stack, bare, d);
    NormalisedHasNoNul(home, s, d, text);
    Finish(dest, d, output, stack, bare);
  }

  lemma NormalisedHasNoNul(home: seq<string>, s: string, d: int, text: string)
    requires HasNoNul(s) && (!IsAbsolute(s) ==> HasNoNul(text) && IsHome(text, home))
    ensures HasNoNul(Normalised(home, s, d))
  {
    if !IsAbsolute(s) {
      assert HasNoNul(Dir(home));
    }
    DirHasNoNul(home);
    DirHasNoNul([]);
    SplitHasNoNul(s);
    ResolveHasNoNul(Start(home, s), Split(s));
    DirHasNoNul(Resolve(Start(home, s), Split(s)));
  }

  ghost predicate AreNulFree(names: seq<string>) { forall i | 0 <= i < |names| :: HasNoNul(names[i]) }

  lemma NulInText(a: string, b: string)
    ensures HasNoNul(a + b) <==> HasNoNul(a) && HasNoNul(b)
  {
    if HasNoNul(a + b) {
      assert forall i | 0 <= i < |a| :: a[i] == (a + b)[i];
      assert forall i | 0 <= i < |b| :: b[i] == (a + b)[|a| + i];
    }
  }

  lemma {:induction false} DirHasNoNul(stack: seq<string>)
    ensures HasNoNul(Dir(stack)) <==> AreNulFree(stack)
  {
    if stack != [] {
      var under, name := stack[..|stack| - 1], stack[|stack| - 1];
      DirHasNoNul(under);
      NulInText(Dir(under) + name, "/");
      NulInText(Dir(under), name);
      assert stack == under + [name];
    }
  }

  lemma {:induction false} SplitHasNoNul(s: string)
    requires HasNoNul(s)
    ensures AreNulFree(Split(s))
    decreases |s|
  {
    var k := FirstSlash(s);
    if k < |s| {
      SplitHasNoNul(s[k + 1..]);
    }
  }

  lemma {:induction false} ResolveHasNoNul(stack: seq<string>, components: seq<string>)
    requires AreNulFree(stack) && AreNulFree(components)
    ensures AreNulFree(Resolve(stack, components))
    decreases |components|
  {
    if components != [] {
      ResolveHasNoNul(Push(stack, components[0]), components[1..]);
    }
  }

  /* ---------- what the specification promises ---------- */

  lemma SplitStep(s: string, c: string, rest: string)
    requires HasNoSlash(c) && s == c + "/" + rest
    ensures Split(s) == [c] + Split(rest)
  {
    SlashOfConcat(c, rest);
    NoSlashToEnd(c);
    assert s[..|c|] == c && s[|c| + 1..] == rest;
  }

  lemma NoSlashToEnd(c: string)
    requires HasNoSlash(c)
    ensures FirstSlash(c) == |c| && Split(c) == [c]
  {
  }

  lemma CutAtSlash(a: string, b: string) returns (c: string, rest: string)
    requires FirstSlash(a) < |a|
    ensures HasNoSlash(c) && |rest| < |a|
    ensures a == c + "/" + rest && a + "/" + b == c + "/" + (rest + "/" + b)
  {
    c, rest := a[..FirstSlash(a)], a[FirstSlash(a) + 1..];
  }

  lemma {:induction false} SplitConcat(a: string, b: string)
    ensures Split(a + "/" + b) == Split(a) + Split(b)
    decreases |a|
  {
    if FirstSlash(a) == |a| {
      NoSlashToEnd(a);
      SplitStep(a + "/" + b, a, b);
    } else {
      var c, rest := CutAtSlash(a, b);
      SplitConcat(rest, b);
      SplitStep(a, c, rest);
      SplitStep(a + "/" + b, c, rest + "/" + b);
      Reassociate([c], Split(rest), Split(b));
    }
  }

  lemma {:induction false} SlashOfConcat(a: string, b: string)
    ensures FirstSlash(a + "/" + b) == FirstSlash(a)
  {
    if a != "" && a[0] != '/' {
      SlashOfConcat(a[1..], b);
      assert (a + "/" + b)[1..] == a[1..] + "/" + b;
    }
  }

  lemma BareText(stack: seq<string>)
    requires stack != []
    ensures Render(stack, true) == Render(stack[..|stack| - 1], true) + "/" + stack[|stack| - 1]
  {
    assert Dir(stack[..|stack| - 1]) == Render(stack[..|stack| - 1], true) + "/";
  }

  lemma SplitWithName(path: string, name: string)
    requires HasNoSlash(name)
    ensures Split(path + "/" + name) == Split(path) + [name]
  {
    NoSlashToEnd(name);
    SplitConcat(path, name);
  }

  // The components of a normalised path are those of the stack.
  lemma {:induction false} SplitBare(stack: seq<string>)
    requires AreNames(stack)
    ensures Split(Render(stack, true)) == [""] + stack
  {
    if stack != [] {
      var under, name := stack[..|stack| - 1], stack[|stack| - 1];
      SplitBare(under);
      BareText(stack);
      SplitWithName(Render(under, true), name);
      assert [""] + stack == [""] + under + [name];
    }
  }

  lemma SplitRendered(stack: seq<string>, bare: bool)
    requires AreNames(stack)
    ensures Split(Render(stack, bare)) == [""] + stack + if bare then [] else [""]
  {
    SplitBare(stack);
    SplitConcat(Render(stack, true), "");
    assert Dir(stack) == Render(stack, true) + "/" + "";
  }

  lemma {:induction false} ResolveNames(stack: seq<string>, names: seq<string>)
    requires AreNames(names)
    ensures Resolve(stack, names) == stack + names
    ensures Resolve(stack, names + [""]) == stack + names
    decreases |names|
  {
    if names == [] {
      ResolveOne(stack, "");
    } else {
      ResolveNames(stack + [names[0]], names[1..]);
      assert (names + [""])[1..] == names[1..] + [""];
    }
  }

  lemma {:induction false} SplitHasNoSlash(s: string)
    ensures forall i | 0 <= i < |Split(s)| :: HasNoSlash(Split(s)[i])
    decreases |s|
  {
    var k := FirstSlash(s);
    assert HasNoSlash(s[..k]);
    if k < |s| {
      SplitHasNoSlash(s[k + 1..]);
    }
  }

  lemma {:induction false} ResolveKeepsNames(stack: seq<string>, components: seq<string>)
    requires AreNames(stack) && forall i | 0 <= i < |components| :: HasNoSlash(components[i])
    ensures AreNames(Resolve(stack, components))
    decreases |components|
  {
    if components != [] {
      PushKeepsNames(stack, components[0]);
      ResolveKeepsNames(Push(stack, components[0]), components[1..]);
    }
  }

  // The output is clean: a slash, names with a slash between each two, and perhaps a last slash.
  lemma NormalisedIsClean(home: seq<string>, s: string, d: int) returns (names: seq<string>, bare: bool)
    requires AreNames(home)
    ensures AreNames(names) && Normalised(home, s, d) == Render(names, bare)
    ensures names == Resolve(Start(home, s), Split(s))
    ensures Split(Normalised(home, s, d)) == [""] + names + if bare then [] else [""]
    ensures bare ==> names != [] && d != 1
    ensures d == 1 ==> IsHome(Normalised(home, s, d), names)
  {
    SplitHasNoSlash(s);
    ResolveKeepsNames(Start(home, s), Split(s));
    names, bare := Resolve(Start(home, s), Split(s)), IsName(Last(Split(s))) && d != 1;
    SplitRendered(names, bare);
    if bare {
      EndsInName(Start(home, s), Split(s));
    }
  }

  lemma {:induction false} EndsInName(stack: seq<string>, components: seq<string>)
    requires |components| > 0 && IsName(Last(components))
    ensures Resolve(stack, components) != []
    decreases |components|
  {
    if |components| > 1 {
      EndsInName(Push(stack, components[0]), components[1..]);
    } else {
      assert components == [components[0]];
      ResolveOne(stack, components[0]);
    }
  }

  lemma RenderedIsAbsolute(names: seq<string>, bare: bool)
    requires AreNames(names) && (bare ==> names != [])
    ensures IsAbsolute(Render(names, bare))
  {
    RenderEnds(names, bare);
  }

  // The normal form of a rendered stack
  lemma RenderedIsNormal(names: seq<string>, bare: bool, d: int, other: seq<string>)
    requires AreNames(names) && (bare ==> names != [])
    ensures Normalised(other, Render(names, bare), d) == Render(names, bare && d != 1)
  {
    RenderedIsAbsolute(names, bare);
    SplitRendered(names, bare);
    ResolveRendered(names, bare);
  }

  lemma ResolveRendered(names: seq<string>, bare: bool)
    requires AreNames(names) && (bare ==> names != [])
    ensures var all := [""] + names + if bare then [] else [""];
            Resolve([], all) == names && (IsName(Last(all)) <==> bare)
  {
    var all := [""] + names + if bare then [] else [""];
    ResolveNames([], names);
    if bare {
      assert all[1..] == names && Last(all) == Last(names);
    } else {
      assert all[1..] == names + [""] && Last(all) == "";
    }
    assert [] + names == names;
  }

  // A normalised path is its own normal form, from whatever directory one looks at it.
  lemma NormalisedIsIdempotent(home: seq<string>, s: string, d: int, other: seq<string>)
    requires AreNames(home)
    ensures Normalised(other, Normalised(home, s, d), d) == Normalised(home, s, d)
  {
    var names, bare := NormalisedIsClean(home, s, d);
    RenderedIsNormal(names, bare, d, other);
  }

  // A relative path means the absolute one made by writing it behind the current directory.
  lemma RelativeMeansFromHome(home: seq<string>, s: string, d: int)
    requires AreNames(home) && !IsAbsolute(s)
    ensures Normalised(home, s, d) == Normalised([], Dir(home) + s, d)
  {
    SplitHome(home, s);
    ResolveAppend([], [""] + home, Split(s));
    assert ([""] + home)[1..] == home;
    ResolveNames([], home);
    assert [] + home == home;
  }

  lemma SplitHome(home: seq<string>, s: string)
    requires AreNames(home)
    ensures Split(Dir(home) + s) == [""] + home + Split(s)
    ensures Last(Split(Dir(home) + s)) == Last(Split(s)) && IsAbsolute(Dir(home) + s)
  {
    SplitBare(home);
    SplitConcat(Render(home, true), s);
    assert Dir(home) + s == Render(home, true) + "/" + s;
  }

  lemma {:induction false} ResolveAppend(stack: seq<string>, a: seq<string>, b: seq<string>)
    ensures Resolve(stack, a + b) == Resolve(Resolve(stack, a), b)
    decreases |a|
  {
    if a == [] {
      assert a + b == b;
    } else {
      ResolveAppend(Push(stack, a[0]), a[1..], b);
      assert (a + b)[1..] == a[1..] + b;
    }
  }

  /* ---------- the laws of paths, on texts ---------- */

  lemma ResolveAround(start: seq<string>, a: seq<string>, middle: seq<string>, b: seq<string>)
    ensures Resolve(start, a + middle + b) == Resolve(Resolve(Resolve(start, a), middle), b)
  {
    ResolveAppend(start, a + middle, b);
    ResolveAppend(start, a, middle);
  }

  lemma ResolveTwo(stack: seq<string>, c: string, e: string)
    ensures Resolve(stack, [c, e]) == Push(Push(stack, c), e)
  {
    assert [c, e][1..] == [e];
    ResolveOne(Push(stack, c), e);
  }

  lemma SplitAroundOne(p: string, c: string, q: string)
    requires HasNoSlash(c)
    ensures Split(p + "/" + c + "/" + q) == Split(p) + [c] + Split(q)
  {
    SplitConcat(p + "/" + c, q);
    SplitWithName(p, c);
  }

  lemma SplitAroundTwo(p: string, c: string, e: string, q: string)
    requires HasNoSlash(c) && HasNoSlash(e)
    ensures Split(p + "/" + c + "/" + e + "/" + q) == Split(p) + [c, e] + Split(q)
  {
    SplitAroundOne(p + "/" + c, e, q);
    SplitWithName(p, c);
    assert Split(p) + [c] + [e] == Split(p) + [c, e];
  }

  // What stands between p and q makes no difference if it leaves every stack alone.
  lemma SameAround(home: seq<string>, s: string, t: string, p: string, middle: seq<string>, q: string, d: int)
    requires Split(s) == Split(p) + middle + Split(q) && Split(t) == Split(p) + Split(q)
    requires IsAbsolute(s) == IsAbsolute(t) && forall stack :: Resolve(stack, middle) == stack
    ensures Normalised(home, s, d) == Normalised(home, t, d)
  {
    ResolveAround(Start(home, s), Split(p), middle, Split(q));
    ResolveAppend(Start(home, s), Split(p), Split(q));
  }

  // A name and ".." behind it vanish.
  lemma DotDotTakesBack(home: seq<string>, p: string, c: string, q: string, d: int)
    requires c != "" && c != "." && c != ".." && forall i | 0 <= i < |c| :: c[i] != '/'
    ensures Normalised(home, p + "/" + c + "/../" + q, d) == Normalised(home, p + "/" + q, d)
  {
    var s := p + "/" + c + "/" + ".." + "/" + q;
    assert p + "/" + c + "/../" + q == s;
    SplitAroundTwo(p, c, "..", q);
    SplitConcat(p, q);
    forall stack
      ensures Resolve(stack, [c, ".."]) == stack
    {
      ResolveTwo(stack, c, "..");
      assert (stack + [c])[..|stack|] == stack;
    }
    SameAround(home, s, p + "/" + q, p, [c, ".."], q, d);
  }

  // At the root ".." vanishes.
  lemma RootAbsorbsDotDot(home: seq<string>, q: string, d: int)
    ensures Normalised(home, "/../" + q, d) == Normalised(home, "/" + q, d)
  {
    assert "/../" + q == "" + "/" + ".." + "/" + q && "/" + q == "" + "/" + q;
    SplitAroundOne("", "..", q);
    SplitConcat("", q);
    assert Split("") == [""];
    ResolveAround([], [""], [".."], Split(q));
    ResolveAppend([], [""], Split(q));
    ResolveOne([], "");
    ResolveOne([], "..");
  }

  // Empty components and "." vanish.
  lemma DotVanishes(home: seq<string>, p: string, q: string, d: int)
    ensures Normalised(home, p + "/./" + q, d) == Normalised(home, p + "/" + q, d)
    ensures Normalised(home, p + "//" + q, d) == Normalised(home, p + "/" + q, d)
  {
    assert p + "/./" + q == p + "/" + "." + "/" + q && p + "//" + q == p + "/" + "" + "/" + q;
    SplitAroundOne(p, ".", q);
    SplitAroundOne(p, "", q);
    SplitConcat(p, q);
    forall stack
      ensures Resolve(stack, ["."]) == stack && Resolve(stack, [""]) == stack
    {
      ResolveOne(stack, ".");
      ResolveOne(stack, "");
    }
    SameAround(home, p + "/" + "." + "/" + q, p + "/" + q, p, ["."], q, d);
    SameAround(home, p + "/" + "" + "/" + q, p + "/" + q, p, [""], q, d);
  }

  // At the end of a path "..", "." and the empty component are as good as with a slash.
  lemma EndsLikeSlash(home: seq<string>, p: string, c: string, d: int)
    requires c == ".." || c == "." || c == ""
    ensures Normalised(home, p + "/" + c, d) == Normalised(home, p + "/" + c + "/", d)
  {
    SplitWithName(p, c);
    SlashAtEnd(home, p + "/" + c, d);
  }

  lemma SlashAtEnd(home: seq<string>, s: string, d: int)
    requires s != "" && !IsName(Last(Split(s)))
    ensures Normalised(home, s, d) == Normalised(home, s + "/", d)
  {
    SplitConcat(s, "");
    assert s + "/" + "" == s + "/" && Split("") == [""];
    ResolveAppend(Start(home, s), Split(s), [""]);
    ResolveOne(Resolve(Start(home, s), Split(s)), "");
  }

  // A text is known by its components.
  lemma {:induction false} SplitIsInjective(s: string, t: string)
    requires Split(s) == Split(t)
    ensures s == t
    decreases |s|
  {
    var c, rest := Peel(s);
    var e, other := Peel(t);
    if |Split(s)| > 1 {
      SplitIsInjective(rest, other);
    }
  }

  // The first component of a text, and what is behind it
  lemma Peel(s: string) returns (c: string, rest: string)
    ensures c == Split(s)[0]
    ensures |Split(s)| == 1 ==> s == c
    ensures |Split(s)| > 1 ==> s == c + "/" + rest && Split(rest) == Split(s)[1..] && |rest| < |s|
  {
    var k := FirstSlash(s);
    c := s[..k];
    rest := "";
    if k < |s| {
      rest := s[k + 1..];
    }
  }

  // Only names between the slashes of an absolute path, and a name or nothing at its end
  predicate IsCleanPath(s: string) {
    && s != "" && s[0] == '/'
    && (forall i | 0 < i < |Split(s)| - 1 :: Split(s)[i] !in {"", ".", ".."})
    && Split(s)[|Split(s)| - 1] !in {".", ".."}
  }

  // Such a path is its own normal form.
  lemma CleanPathStays(home: seq<string>, s: string, d: int)
    requires IsCleanPath(s)
    ensures Normalised(home, s, d) == if d == 1 && s[|s| - 1] != '/' then s + "/" else s
  {
    var all := Split(s);
    var bare := Last(all) != "";
    var names := all[1..if bare then |all| else |all| - 1];
    SplitHasNoSlash(s);
    CleanHead(s);
    SplitRendered(names, bare);
    assert all == [""] + names + if bare then [] else [""];
    SplitIsInjective(s, Render(names, bare));
    RenderedIsNormal(names, bare, d, home);
    RenderEnds(names, bare);
  }

  lemma CleanHead(s: string)
    requires IsAbsolute(s)
    ensures |Split(s)| > 1 && Split(s)[0] == ""
  {
    assert s == "" + "/" + s[1..];
    SplitStep(s, "", s[1..]);
  }

  /* ---------- the length of the output ---------- */

  function Weight(components: seq<string>): nat {
    if components == [] then 0 else |components[0]| + 1 + Weight(components[1..])
  }

  lemma {:induction false} WeightOfSplit(s: string)
    ensures Weight(Split(s)) == |s| + 1
    decreases |s|
  {
    var k := FirstSlash(s);
    if k < |s| {
      WeightOfSplit(s[k + 1..]);
    }
  }

  lemma PushIsShort(stack: seq<string>, c: string)
    ensures |Dir(Push(stack, c))| <= |Dir(stack)| + if IsName(c) then |c| + 1 else 0
  {
  }

  lemma {:induction false} ResolveIsShort(stack: seq<string>, components: seq<string>)
    requires |components| > 0
    ensures |Dir(Resolve(stack, components))| <= |Dir(stack)| + Weight(components)
    ensures !IsName(Last(components)) ==> |Dir(Resolve(stack, components))| < |Dir(stack)| + Weight(components)
    decreases |components|
  {
    PushIsShort(stack, components[0]);
    if |components| > 1 {
      ResolveIsShort(Push(stack, components[0]), components[1..]);
    } else {
      assert components == [components[0]];
      ResolveOne(stack, components[0]);
    }
  }

  // An absolute path grows by at most one character, the slash that d asks for.
  lemma NormalisedIsShort(home: seq<string>, s: string, d: int)
    requires IsAbsolute(s)
    ensures |Normalised(home, s, d)| <= |s| + if d == 1 then 1 else 0
  {
    var components := Split(s);
    assert FirstSlash(s) == 0 && components == [""] + Split(s[1..]);
    assert components[1..] == Split(s[1..]);
    WeightOfSplit(s[1..]);
    assert Last(components) == Last(components[1..]);
    ResolveIsShort([], components[1..]);
  }
}
