/**
 * getenv and setenv of sys/tarfs.c.  The environment is a run of pages, each beginning with
 * NAME=VALUE, ended by a page that begins with NUL.  It refines an ordered list of variables.
 */
module Environment {
  import opened CStrings
  import opened Options

  const PAGE: nat := 0x1000

  /* ---------- the list of variables ---------- */

  datatype Variable = Variable(name: string, value: string)

  // The value of the first variable of this name
  function Lookup(variables: seq<Variable>, name: string): Option<string> {
    if variables == [] then None
    else if variables[0].name == name then Some(variables[0].value)
    else Lookup(variables[1..], name)
  }

  // A variable that exists gets the value in its place; a new one is added at the end.
  function Updated(variables: seq<Variable>, name: string, value: string): seq<Variable> {
    if variables == [] then [Variable(name, value)]
    else if variables[0].name == name then [Variable(name, value)] + variables[1..]
    else [variables[0]] + Updated(variables[1..], name, value)
  }

  lemma {:induction false} LookupAfterUpdate(variables: seq<Variable>, name: string, value: string, other: string)
    ensures Lookup(Updated(variables, name, value), other) ==
              if other == name then Some(value) else Lookup(variables, other)
  {
    if variables != [] && variables[0].name != name {
      LookupAfterUpdate(variables[1..], name, value, other);
      assert Updated(variables, name, value)[1..] == Updated(variables[1..], name, value);
    } else if variables != [] {
      assert Updated(variables, name, value)[1..] == variables[1..];
    } else {
      assert Updated(variables, name, value)[1..] == [];
    }
  }

  // The order of the names stays: a new name can only come last.
  function Names(variables: seq<Variable>): seq<string> {
    seq(|variables|, i requires 0 <= i < |variables| => variables[i].name)
  }

  lemma NamesOf(first: Variable, rest: seq<Variable>)
    ensures Names([first] + rest) == [first.name] + Names(rest)
  {
  }

  lemma {:induction false} UpdateKeepsNames(variables: seq<Variable>, name: string, value: string)
    ensures Names(Updated(variables, name, value)) ==
              if Lookup(variables, name).Some? then Names(variables) else Names(variables) + [name]
  {
    if variables != [] && variables[0].name != name {
      UpdateKeepsNames(variables[1..], name, value);
      NamesOf(variables[0], variables[1..]);
      NamesOf(variables[0], Updated(variables[1..], name, value));
      assert [variables[0]] + variables[1..] == variables;
    }
  }

  // Position k holds the first variable of this name; k == |variables| when there is none.
  ghost predicate IsFirst(variables: seq<Variable>, name: string, k: nat) {
    && k <= |variables| && (forall i | 0 <= i < k :: variables[i].name != name)
    && (k < |variables| ==> variables[k].name == name)
  }

  lemma FirstInTail(variables: seq<Variable>, name: string, k: nat)
    requires IsFirst(variables, name, k) && variables != [] && variables[0].name != name
    ensures k > 0 && IsFirst(variables[1..], name, k - 1)
  {
    assert forall i | 0 <= i < k - 1 :: variables[1..][i] == variables[i + 1];
  }

  lemma {:induction false} FirstIsFound(variables: seq<Variable>, name: string, k: nat)
    requires IsFirst(variables, name, k)
    ensures Lookup(variables, name) == if k < |variables| then Some(variables[k].value) else None
    decreases |variables|
  {
    if variables != [] && variables[0].name != name {
      FirstInTail(variables, name, k);
      FirstIsFound(variables[1..], name, k - 1);
    }
  }

  // What an update does to the list, by position
  ghost function Put(variables: seq<Variable>, k: nat, v: Variable): seq<Variable>
    requires k <= |variables|
  {
    if k < |variables| then variables[k := v] else variables + [v]
  }

  lemma PutInTail(variables: seq<Variable>, k: nat, v: Variable)
    requires 0 < k <= |variables|
    ensures Put(variables, k, v) == [variables[0]] + Put(variables[1..], k - 1, v)
  {
  }

  lemma {:induction false} FirstIsUpdated(variables: seq<Variable>, name: string, value: string, k: nat)
    requires IsFirst(variables, name, k)
    ensures Updated(variables, name, value) == Put(variables, k, Variable(name, value))
    decreases |variables|
  {
    if variables != [] && variables[0].name != name {
      FirstInTail(variables, name, k);
      FirstIsUpdated(variables[1..], name, value, k - 1);
      PutInTail(variables, k, Variable(name, value));
    }
  }

  /* ---------- the pages ---------- */

  // Names are not empty and hold no '='; the name fits the buffer of getenv.
  ghost predicate IsVariableName(name: string) {
    0 < |name| < 256 && HasNoNul(name) && forall i | 0 <= i < |name| :: name[i] != '='
  }

  // The text and the two NULs behind it fit a page.
  ghost predicate FitsPage(name: string, value: string) { |name| + 1 + |value| + 2 <= PAGE }

  // The page at `at` begins with this variable.
  ghost predicate IsEntry(bytes: seq<char>, at: nat, v: Variable) {
    match v
    case Variable(name, value) =>
      && at + PAGE <= |bytes| && IsVariableName(name) && FitsPage(name, value) && HasNoNul(value)
      && bytes[at..at + |name|] == name && bytes[at + |name|] == '='
      && bytes[at + |name| + 1..at + |name| + 1 + |value|] == value && bytes[at + |name| + 1 + |value|] == '\0'
  }

  // The page as a text
  lemma EntryText(bytes: seq<char>, at: nat, v: Variable)
    requires IsEntry(bytes, at, v)
    ensures at + |v.name| + |v.value| + 2 <= |bytes|
    ensures bytes[at..at + |v.name| + |v.value| + 2] == v.name + "=" + v.value + "\0"
  {
    var a, b := at + |v.name|, at + |v.name| + 1 + |v.value|;
    assert bytes[at..b + 1] == bytes[at..a] + [bytes[a]] + bytes[a + 1..b] + [bytes[b]];
  }

  // The pages hold these variables, and an empty page ends them.
  ghost predicate IsEnvironment(bytes: seq<char>, variables: seq<Variable>) {
    && (|variables| + 1) * PAGE <= |bytes|
    && bytes[|variables| * PAGE] == '\0'
    && (forall k {:trigger variables[k]} | 0 <= k < |variables| :: IsEntry(bytes, k * PAGE, variables[k]))
  }

  // Only bytes of the page at `at` may differ.
  ghost predicate OnlyPageChanged(bytes: seq<char>, after: seq<char>, at: nat, end: nat) {
    |after| == |bytes| && forall i {:trigger after[i]} {:trigger bytes[i]} | 0 <= i < |bytes| && !(at <= i < end) ::
      after[i] == bytes[i]
  }

  lemma EntryStays(bytes: seq<char>, after: seq<char>, at: nat, v: Variable, from: nat, end: nat)
    requires IsEntry(bytes, at, v) && OnlyPageChanged(bytes, after, from, end) && (at + PAGE <= from || end <= at)
    ensures IsEntry(after, at, v)
  {
  }

  lemma ReplacedEntry(bytes: seq<char>, after: seq<char>, variables: seq<Variable>, k: nat, v: Variable)
    requires IsEnvironment(bytes, variables) && k < |variables|
    requires OnlyPageChanged(bytes, after, k * PAGE, k * PAGE + PAGE) && IsEntry(after, k * PAGE, v)
    ensures IsEnvironment(after, variables[k := v])
  {
    forall i | 0 <= i < |variables| && i != k
      ensures IsEntry(after, i * PAGE, variables[i])
    {
      EntryStays(bytes, after, i * PAGE, variables[i], k * PAGE, k * PAGE + PAGE);
    }
  }

  lemma AddedEntry(bytes: seq<char>, after: seq<char>, variables: seq<Variable>, v: Variable)
    requires IsEnvironment(bytes, variables) && (|variables| + 2) * PAGE <= |bytes|
    requires OnlyPageChanged(bytes, after, |variables| * PAGE, (|variables| + 2) * PAGE)
    requires IsEntry(after, |variables| * PAGE, v) && after[(|variables| + 1) * PAGE] == '\0'
    ensures IsEnvironment(after, variables + [v])
  {
    forall i | 0 <= i < |variables|
      ensures IsEntry(after, i * PAGE, variables[i])
    {
      EntryStays(bytes, after, i * PAGE, variables[i], |variables| * PAGE, (|variables| + 2) * PAGE);
    }
  }

  lemma EntryAt(bytes: seq<char>, variables: seq<Variable>, k: nat)
    requires IsEnvironment(bytes, variables) && k <= |variables|
    ensures k * PAGE < |bytes| && (bytes[k * PAGE] == '\0' <==> k == |variables|)
    ensures k < |variables| ==> IsEntry(bytes, k * PAGE, variables[k])
  {
    if k < |variables| {
      NameByte(bytes, k * PAGE, variables[k], 0);
    }
  }

  lemma NameByte(bytes: seq<char>, at: nat, v: Variable, i: nat)
    requires IsEntry(bytes, at, v) && i <= |v.name|
    ensures at + i < |bytes| && |v.name| < 256 && (bytes[at + i] == '=' <==> i == |v.name|)
    ensures i < |v.name| ==> bytes[at + i] == v.name[i] && v.name[i] != '\0'
  {
    if i < |v.name| {
      assert bytes[at..at + |v.name|][i] == bytes[at + i];
    }
  }

  /* ---------- the code ---------- */

  // The name at the beginning of a page
  method ReadName(environ: array<char>, at: nat, temp: array<char>, ghost v: Variable) returns (length: nat)
    requires IsEntry(environ[..], at, v) && temp != environ && temp.Length >= 256
    modifies temp
    ensures length == |v.name| && IsCString(temp[..], v.name)
  {
    length := 0;
    NameByte(environ[..], at, v, 0);
    while environ[at + length] != '='
      invariant length <= |v.name| < 256 && at + length < environ.Length
      invariant environ[at + length] == '=' <==> length == |v.name|
      invariant temp[..length] == v.name[..length]
      decreases |v.name| - length
    {
      NameByte(environ[..], at, v, length);
      NameByte(environ[..], at, v, length + 1);
      temp[length] := environ[at + length];
      length := length + 1;
    }
    temp[length] := '\0';
    assert v.name[..length] == v.name && temp[..][..length] == v.name;
  }

  // Does the page at `at` define this name?  `length` is that of the name there.
  method Defines(environ: array<char>, at: nat, temp: array<char>, name: seq<char>, ghost wanted: string,
                 ghost v: Variable)
    returns (same: bool, length: nat)
    requires IsEntry(environ[..], at, v) && temp != environ && temp.Length >= 256 && IsCString(name, wanted)
    modifies temp
    ensures same == (v.name == wanted) && length == |v.name|
  {
    length := ReadName(environ, at, temp, v);
    var order := Strcmp(temp[..], name, v.name, wanted);
    same := order == 0;
  }

  ghost predicate IsNotBefore(variables: seq<Variable>, name: string, k: nat) {
    k <= |variables| && forall i | 0 <= i < k :: variables[i].name != name
  }

  lemma OneFurther(variables: seq<Variable>, name: string, k: nat)
    requires IsNotBefore(variables, name, k) && k < |variables|
    ensures variables[k].name == name ==> IsFirst(variables, name, k)
    ensures variables[k].name != name ==> IsNotBefore(variables, name, k + 1)
  {
  }

  lemma NoneLeft(variables: seq<Variable>, name: string)
    ensures IsNotBefore(variables, name, |variables|) ==> IsFirst(variables, name, |variables|)
    ensures IsNotBefore(variables, name, 0)
  {
  }

  // The loop of getenv over the pages
  method FindVariable(environ: array<char>, name: seq<char>, ghost wanted: string, ghost variables: seq<Variable>)
    returns (position: int, ghost k: nat)
    requires IsEnvironment(environ[..], variables) && IsCString(name, wanted)
    ensures IsFirst(variables, wanted, k)
    ensures position == if k < |variables| then k * PAGE + |wanted| + 1 else -1
  {
    var temp := new char[256];
    var at := 0;
    k := 0;
    NoneLeft(variables, wanted);
    EntryAt(environ[..], variables, 0);
    while environ[at] != '\0'
      invariant at == k * PAGE && at < environ.Length && (environ[at] == '\0' <==> k == |variables|)
      invariant IsNotBefore(variables, wanted, k)
      decreases |variables| - k
    {
      EntryAt(environ[..], variables, k);
      EntryAt(environ[..], variables, k + 1);
      OneFurther(variables, wanted, k);
      var same, length := Defines(environ, at, temp, name, wanted, variables[k]);
      if same {
        return at + length + 1, k;
      }
      at := at + PAGE;
      k := k + 1;
    }
    NoneLeft(variables, wanted);
    position := -1;
  }

  // The value of a variable is what the source's pointer leads to.
  lemma PositionHoldsValue(bytes: seq<char>, variables: seq<Variable>, name: string, k: nat)
    requires IsEnvironment(bytes, variables) && IsFirst(variables, name, k) && k < |variables|
    ensures k * PAGE + |name| + 1 <= |bytes|
    ensures Lookup(variables, name) == Some(variables[k].value)
    ensures IsCString(bytes[k * PAGE + |name| + 1..], variables[k].value)
  {
    FirstIsFound(variables, name, k);
    EntryAt(bytes, variables, k);
    ValueInEntry(bytes, k * PAGE, variables[k]);
  }

  lemma ValueInEntry(bytes: seq<char>, at: nat, v: Variable)
    requires IsEntry(bytes, at, v)
    ensures at + |v.name| + 1 <= |bytes| && IsCString(bytes[at + |v.name| + 1..], v.value)
  {
    var p := at + |v.name| + 1;
    assert bytes[p..][..|v.value|] == bytes[p..p + |v.value|];
  }

  // getenv: where the value is, or -1
  method Getenv(environ: array<char>, name: seq<char>, ghost wanted: string, ghost variables: seq<Variable>)
    returns (position: int, ghost k: nat)
    requires IsEnvironment(environ[..], variables) && IsCString(name, wanted)
    ensures IsFirst(variables, wanted, k)
    ensures position == if k < |variables| then k * 0x1000 + |wanted| + 1 else -1
    ensures position == -1 <==> Lookup(variables, wanted) == None
    ensures position != -1 ==>
              && 0 <= position <= environ.Length && Lookup(variables, wanted).Some?
              && IsCString(environ[position..], Lookup(variables, wanted).value)
  {
    position, k := FindVariable(environ, name, wanted, variables);
    FirstIsFound(variables, wanted, k);
    if position != -1 {
      PositionHoldsValue(environ[..], variables, wanted, k);
      assert environ[position..] == environ[..][position..];
    }
  }

  // A bytewise copy of a string without its NUL
  method PutString(environ: array<char>, at: nat, text: seq<char>, ghost content: string) returns (end: nat)
    requires IsCString(text, content) && at + |content| <= environ.Length
    modifies environ
    ensures end == at + |content| && environ[at..end] == content
    ensures OnlyPageChanged(old(environ[..]), environ[..], at, end)
  {
    end := at;
    var i := 0;
    CStringAt(text, content, 0);
    while text[i] != '\0'
      invariant i <= |content| && i < |text| && end == at + i && (text[i] == '\0' <==> i == |content|)
      invariant environ[at..end] == content[..i]
      invariant OnlyPageChanged(old(environ[..]), environ[..], at, end)
      decreases |content| - i
    {
      CStringAt(text, content, i);
      CStringAt(text, content, i + 1);
      environ[end] := text[i];
      end := end + 1;
      i := i + 1;
    }
    assert content[..i] == content;
  }

  // The value of an existing variable is overwritten in place, and two NULs follow it.
  method Overwrite(environ: array<char>, start: nat, value: seq<char>, ghost at: nat, ghost v: Variable,
                   ghost content: string)
    requires start == at + |v.name| + 1
    requires IsEntry(environ[..], at, v) && IsCString(value, content) && FitsPage(v.name, content)
    modifies environ
    ensures IsEntry(environ[..], at, Variable(v.name, content))
    ensures OnlyPageChanged(old(environ[..]), environ[..], at, at + PAGE)
  {
    ghost var before := environ[..];
    var end := PutString(environ, start, value, content);
    assert environ[at..at + |v.name|] == before[at..at + |v.name|];
    environ[end] := '\0';
    environ[end + 1] := '\0';
  }

  // NAME=VALUE and a NUL at the beginning of a page
  method WriteEntry(environ: array<char>, at: nat, name: seq<char>, value: seq<char>, ghost v: Variable)
    requires IsCString(name, v.name) && IsCString(value, v.value) && at + PAGE <= environ.Length
    requires IsVariableName(v.name) && FitsPage(v.name, v.value)
    modifies environ
    ensures IsEntry(environ[..], at, v)
    ensures OnlyPageChanged(old(environ[..]), environ[..], at, at + PAGE)
  {
    var end := PutString(environ, at, name, v.name);
    environ[end] := '=';
    end := end + 1;
    end := PutString(environ, end, value, v.value);
    environ[end] := '\0';
  }

  // kmalloc and the mapping of the page behind the new variable: a zeroed page
  method MapEmptyPage(environ: array<char>, at: nat)
    requires at + PAGE <= environ.Length
    modifies environ
    ensures environ[at] == '\0' && OnlyPageChanged(old(environ[..]), environ[..], at, at + PAGE)
  {
    forall i | at <= i < at + PAGE {
      environ[i] := '\0';
    }
  }

  // The first empty page
  method FindEnd(environ: array<char>, ghost variables: seq<Variable>) returns (at: nat)
    requires IsEnvironment(environ[..], variables)
    ensures at == |variables| * PAGE
  {
    at := 0;
    ghost var k := 0;
    EntryAt(environ[..], variables, 0);
    while environ[at] != '\0'
      invariant k <= |variables| && at == k * PAGE && at < environ.Length && (environ[at] == '\0' <==> k == |variables|)
      decreases |variables| - k
    {
      EntryAt(environ[..], variables, k + 1);
      at := at + PAGE;
      k := k + 1;
    }
  }

  // The second half of setenv
  method AddVariable(environ: array<char>, name: seq<char>, value: seq<char>, ghost v: Variable,
                     ghost variables: seq<Variable>)
    requires IsEnvironment(environ[..], variables) && (|variables| + 2) * PAGE <= environ.Length
    requires IsCString(name, v.name) && IsCString(value, v.value) && IsVariableName(v.name) && FitsPage(v.name, v.value)
    modifies environ
    ensures IsEnvironment(environ[..], variables + [v])
  {
    ghost var before := environ[..];
    var at := FindEnd(environ, variables);
    WriteEntry(environ, at, name, value, v);
    ghost var mid := environ[..];
    MapEmptyPage(environ, at + PAGE);
    EntryStays(mid, environ[..], at, v, at + PAGE, at + PAGE + PAGE);
    ChangesAdd(before, mid, environ[..], at);
    AddedEntry(before, environ[..], variables, v);
  }

  lemma ChangesAdd(a: seq<char>, b: seq<char>, c: seq<char>, at: nat)
    requires OnlyPageChanged(a, b, at, at + PAGE) && OnlyPageChanged(b, c, at + PAGE, at + PAGE + PAGE)
    ensures OnlyPageChanged(a, c, at, at + PAGE + PAGE)
  {
  }

  // setenv; its flag `overwrite` is not looked at.
  method Setenv(environ: array<char>, name: seq<char>, value: seq<char>, overwrite: int,
                ghost variables: seq<Variable>, ghost wanted: string, ghost content: string)
    returns (result: int)
    requires IsEnvironment(environ[..], variables)
    requires Lookup(variables, wanted).None? ==> (|variables| + 2) * PAGE <= environ.Length
    requires IsCString(name, wanted) && IsCString(value, content) && IsVariableName(wanted) && FitsPage(wanted, content)
    modifies environ
    ensures result == 0 && IsEnvironment(environ[..], Updated(variables, wanted, content))
  {
    var start;
    ghost var k;
    start, k := Getenv(environ, name, wanted, variables);
    FirstIsFound(variables, wanted, k);
    FirstIsUpdated(variables, wanted, content, k);
    if start != -1 {
      EntryAt(environ[..], variables, k);
      ghost var before := environ[..];
      Overwrite(environ, start, value, k * PAGE, variables[k], content);
      ReplacedEntry(before, environ[..], variables, k, Variable(wanted, content));
    } else {
      AddVariable(environ, name, value, Variable(wanted, content), variables);
    }
    result := 0;
  }
}
