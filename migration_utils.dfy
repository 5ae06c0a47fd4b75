/**
 * `MigrationUtils.SqlCommandsToScript`: joins SQL commands into one script,
 * each command followed by the line terminator `StringBuilder.AppendLine`
 * writes.
 */
module MigrationUtils {

  /** `Environment.NewLine` as written by `AppendLine` (the Unix value). */
  const NL: string := "\n"

  /** The script for `commands`: every command followed by `NL`, in order. */
  function Script(commands: seq<string>): string
  {
    if |commands| == 0 then "" else commands[0] + NL + Script(commands[1..])
  }

  /** The sum of the lengths of the commands. */
  function TotalLength(commands: seq<string>): nat
  {
    if |commands| == 0 then 0 else |commands[0]| + TotalLength(commands[1..])
  }

  /** Scripts of two command lists concatenate: commands keep their input order. */
  lemma {:induction false} ScriptConcat(a: seq<string>, b: seq<string>)
    ensures Script(a + b) == Script(a) + Script(b)
  {
    if |a| > 0 {
      assert (a + b)[1..] == a[1..] + b;
      ScriptConcat(a[1..], b);
    } else {
      assert a + b == b;
    }
  }

  /** No commands give the empty script; one command gives that command and a line break. */
  lemma ScriptOfFewCommands(c: string)
    ensures Script([]) == ""
    ensures Script([c]) == c + NL
  {
    assert [c][1..] == [];
  }

  /** The script is as long as its commands plus one line terminator per command. */
  lemma {:induction false} ScriptLength(commands: seq<string>)
    ensures |Script(commands)| == TotalLength(commands) + |commands| * |NL|
  {
    if |commands| > 0 {
      ScriptLength(commands[1..]);
    }
  }

  /** The `foreach` loop over a `StringBuilder`. */
  method SqlCommandsToScript(sqlCommands: seq<string>) returns (script: string)
    ensures script == Script(sqlCommands)
  {
    var stringBuilder := "";
    var i := 0;
    while i < |sqlCommands|
      invariant 0 <= i <= |sqlCommands|
      invariant stringBuilder == Script(sqlCommands[..i])
    {
      ScriptConcat(sqlCommands[..i], [sqlCommands[i]]);
      ScriptOfFewCommands(sqlCommands[i]);
      assert sqlCommands[..i + 1] == sqlCommands[..i] + [sqlCommands[i]];
      stringBuilder := stringBuilder + sqlCommands[i] + NL;
      i := i + 1;
    }
    assert sqlCommands[..i] == sqlCommands;
    script := stringBuilder;
  }
}
