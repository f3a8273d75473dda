/** The `.env.local` reader of the RLS diagnosis script: the file is cut
    into lines at `\n`, each line is matched against `^([^=]+)=(.*)$`, and
    each match stores its trimmed value under its trimmed key, later lines
    overwriting earlier ones. */
module EnvFile {
  import opened Options
  import opened Text

  /** The characters `.` does not match in an ECMAScript regular expression. */
  predicate IsLineTerminator(c: char)
  {
    c == '\n' || c == '\r' || c == '\U{2028}' || c == '\U{2029}'
  }

  predicate NoLineTerminator(s: string)
  {
    forall k :: 0 <= k < |s| ==> !IsLineTerminator(s[k])
  }

  /** The two groups of `line.match(/^([^=]+)=(.*)$/)`. The first group
      cannot hold `=`, so it is everything before the first `=` and must
      not be empty; `(.*)$` must then reach the end of the line without
      meeting a line terminator. */
  function Groups(line: string): (g: Option<(string, string)>)
    ensures '=' !in line ==> g.None?
    ensures line != [] && line[0] == '=' ==> g.None?
    ensures line != [] && line[|line| - 1] == '\r' ==> g.None?
    ensures g.Some? ==> g.value.0 != [] && '=' !in g.value.0 && NoLineTerminator(g.value.1)
  {
    match IndexOfChar(line, '=')
    case None => None
    case Some(i) =>
      if i > 0 && NoLineTerminator(line[i + 1..]) then Some((line[..i], line[i + 1..]))
      else
        assert line != [] && line[|line| - 1] == '\r' ==> line[i + 1..][|line| - i - 2] == '\r';
        None
  }

  /** A matching line gives its key and value, both trimmed. */
  function MatchLine(line: string): (m: Option<(string, string)>)
    ensures '=' !in line ==> m.None?
    ensures line != [] && line[0] == '=' ==> m.None?
    ensures line != [] && line[|line| - 1] == '\r' ==> m.None?
  {
    match Groups(line)
    case None => None
    case Some(g) => Some((Trim(g.0), Trim(g.1)))
  }

  /** A line `key=value` whose key holds no `=` and whose value holds no
      line terminator is read as its trimmed key and trimmed value; the
      value keeps any further `=` signs. */
  lemma MatchSplit(key: string, value: string)
    requires key != [] && '=' !in key && NoLineTerminator(value)
    ensures MatchLine(key + "=" + value) == Some((Trim(key), Trim(value)))
  {
    var line := key + "=" + value;
    assert line[..|key|] == key;
    assert line[|key| + 1..] == value;
    IndexOfCharAt(line, '=', |key|);
  }

  /** A value that runs into a line terminator after the `=` rejects the
      whole line. */
  lemma TerminatorInValueRejects(key: string, value: string)
    requires '=' !in key && !NoLineTerminator(value)
    ensures MatchLine(key + "=" + value).None?
  {
    var line := key + "=" + value;
    assert line[..|key|] == key;
    assert line[|key| + 1..] == value;
    IndexOfCharAt(line, '=', |key|);
  }

  /** The map after applying the matches in order: each match sets its key,
      overwriting what an earlier one set. */
  function Assign(matches: seq<Option<(string, string)>>): map<string, string>
  {
    if matches == [] then map[]
    else
      var env := Assign(matches[..|matches| - 1]);
      match matches[|matches| - 1]
      case None => env
      case Some(kv) => env[kv.0 := kv.1]
  }

  /** The result of matching each line. */
  function Matches(lines: seq<string>): (ms: seq<Option<(string, string)>>)
    ensures |ms| == |lines| && forall k :: 0 <= k < |lines| ==> ms[k] == MatchLine(lines[k])
  {
    seq(|lines|, k requires 0 <= k < |lines| => MatchLine(lines[k]))
  }

  /** The map after reading `lines` in order. */
  function EnvOf(lines: seq<string>): map<string, string>
  {
    Assign(Matches(lines))
  }

  /** `envContent.split('\n').forEach(...)` writing into `env`. */
  method ParseEnv(content: string) returns (env: map<string, string>)
    ensures env == EnvOf(Split(content, '\n'))
  {
    var lines := Split(content, '\n');
    ghost var ms := Matches(lines);
    env := map[];
    var i := 0;
    while i < |lines|
      invariant 0 <= i <= |lines|
      invariant env == Assign(ms[..i])
    {
      var m := MatchLine(lines[i]);
      AssignStep(ms[..i + 1]);
      assert ms[..i + 1][..i] == ms[..i];
      if m.Some? {
        env := env[m.value.0 := m.value.1];
      }
      i := i + 1;
    }
    assert ms[..|lines|] == ms;
  }

  lemma AssignStep(ms: seq<Option<(string, string)>>)
    requires ms != []
    ensures var env := Assign(ms[..|ms| - 1]);
      Assign(ms) == if ms[|ms| - 1].Some? then env[ms[|ms| - 1].value.0 := ms[|ms| - 1].value.1] else env
  {
  }

  lemma MatchesConcat(a: seq<string>, b: seq<string>)
    ensures Matches(a + b) == Matches(a) + Matches(b)
  {
    assert forall k :: 0 <= k < |a| ==> (a + b)[k] == a[k];
    assert forall k :: |a| <= k < |a| + |b| ==> (a + b)[k] == b[k - |a|];
  }

  /** A key is present exactly when some match sets it. */
  lemma {:induction false} AssignKeys(ms: seq<Option<(string, string)>>, key: string)
    ensures key in Assign(ms) <==> exists j :: 0 <= j < |ms| && ms[j].Some? && ms[j].value.0 == key
  {
    if ms != [] {
      var init := ms[..|ms| - 1];
      AssignKeys(init, key);
      assert forall j :: 0 <= j < |init| ==> init[j] == ms[j];
    }
  }

  /** A key is present exactly when some line matches with that key. */
  lemma EnvKeys(lines: seq<string>, key: string)
    ensures key in EnvOf(lines) <==>
      exists j :: 0 <= j < |lines| && MatchLine(lines[j]).Some? && MatchLine(lines[j]).value.0 == key
  {
    AssignKeys(Matches(lines), key);
  }

  lemma {:induction false} AssignLastWins(ms: seq<Option<(string, string)>>, j: nat, key: string, value: string)
    requires j < |ms| && ms[j] == Some((key, value))
    requires forall k :: j < k < |ms| ==> ms[k].None? || ms[k].value.0 != key
    ensures key in Assign(ms) && Assign(ms)[key] == value
  {
    if j < |ms| - 1 {
      var init := ms[..|ms| - 1];
      assert forall k :: 0 <= k < |init| ==> init[k] == ms[k];
      AssignLastWins(init, j, key, value);
    }
  }

  /** The value stored under a key is the one on the last line matching
      with that key. */
  lemma LastLineWins(lines: seq<string>, j: nat, key: string, value: string)
    requires j < |lines| && MatchLine(lines[j]) == Some((key, value))
    requires forall k :: j < k < |lines| ==> MatchLine(lines[k]).None? || MatchLine(lines[k]).value.0 != key
    ensures key in EnvOf(lines) && EnvOf(lines)[key] == value
  {
    AssignLastWins(Matches(lines), j, key, value);
  }

  lemma {:induction false} AssignSkipsNone(before: seq<Option<(string, string)>>, after: seq<Option<(string, string)>>)
    ensures Assign(before + [None] + after) == Assign(before + after)
  {
    if after == [] {
      assert (before + [None])[..|before|] == before;
      assert before + [] == before;
      assert before + [None] + [] == before + [None];
    } else {
      var init := after[..|after| - 1];
      AssignSkipsNone(before, init);
      assert (before + [None] + after)[..|before| + 1 + |after| - 1] == before + [None] + init;
      assert (before + after)[..|before| + |after| - 1] == before + init;
    }
  }

  /** A line that does not match can be removed without changing the map. */
  lemma NonMatchingLineIgnored(before: seq<string>, line: string, after: seq<string>)
    requires MatchLine(line).None?
    ensures EnvOf(before + [line] + after) == EnvOf(before + after)
  {
    AssignSkipsNone(Matches(before), Matches(after));
    MatchesConcat(before, [line]);
    MatchesConcat(before + [line], after);
    MatchesConcat(before, after);
    assert Matches([line]) == [None];
  }

  lemma {:induction false} AssignAllNone(ms: seq<Option<(string, string)>>)
    requires forall k :: 0 <= k < |ms| ==> ms[k].None?
    ensures Assign(ms) == map[]
  {
    if ms != [] {
      var init := ms[..|ms| - 1];
      assert forall k :: 0 <= k < |init| ==> init[k] == ms[k];
      AssignAllNone(init);
    }
  }

  /** Every line is empty or ends in `\r`, as in a file saved with CRLF
      line endings. */
  predicate AllCarriageReturn(lines: seq<string>)
  {
    forall k :: 0 <= k < |lines| ==> lines[k] == [] || lines[k][|lines[k]| - 1] == '\r'
  }

  /** A file whose every non-empty line ends in `\r` (a CRLF file) yields
      an empty map. */
  lemma CrlfFileIsEmpty(lines: seq<string>)
    requires AllCarriageReturn(lines)
    ensures EnvOf(lines) == map[]
  {
    AssignAllNone(Matches(lines));
  }
}
