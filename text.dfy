/** The string handling behind the save toast: `String.prototype.toLowerCase`
    on the status tag and `Array.prototype.join` of the message lines. */
module Text {

  /** `toLowerCase` on one character, for the ASCII letters. */
  function LowerChar(c: char): char
  {
    if 'A' <= c <= 'Z' then (c as int + 32) as char else c
  }

  function ToLower(s: string): (r: string)
    ensures |r| == |s|
  {
    seq(|s|, i requires 0 <= i < |s| => LowerChar(s[i]))
  }

  /** The test `result[0].toLowerCase() === 'success'`. */
  predicate IsSuccessTag(tag: string)
  {
    ToLower(tag) == "success"
  }

  /** A lower-case letter is the lower case of exactly itself and its
      upper-case form. */
  lemma LowerCharIs(c: char, lower: char)
    requires 'a' <= lower <= 'z'
    ensures LowerChar(c) == lower <==> c == lower || c as int == lower as int - 32
  {
  }

  /** The status tag counts as success exactly when it spells "success"
      with each letter in either case ("Success", "SUCCESS", "sUcCeSs"). */
  lemma {:induction false} SuccessTagIff(tag: string)
    ensures IsSuccessTag(tag) <==>
      |tag| == 7 && forall i :: 0 <= i < 7 ==> tag[i] == "success"[i] || tag[i] == "SUCCESS"[i]
  {
    var lower := ToLower(tag);
    if |tag| == 7 {
      forall i | 0 <= i < 7
        ensures lower[i] == "success"[i] <==> tag[i] == "success"[i] || tag[i] == "SUCCESS"[i]
      {
        LowerCharIs(tag[i], "success"[i]);
      }
      if forall i :: 0 <= i < 7 ==> lower[i] == "success"[i] {
        assert lower == "success";
      }
    }
  }

  /** `lines.join(sep)`: the lines with `sep` between neighbours; no lines
      join to the empty string. */
  function Join(lines: seq<string>, sep: string): string
  {
    if |lines| == 0 then ""
    else if |lines| == 1 then lines[0]
    else lines[0] + sep + Join(lines[1..], sep)
  }

  /** Splitting on a character, the inverse that a reader of the toast
      applies to recover its lines: always at least one piece. */
  function Split(s: string, sep: char): (pieces: seq<string>)
    ensures |pieces| >= 1
  {
    if |s| == 0 then [""]
    else
      var rest := Split(s[1..], sep);
      if s[0] == sep then [""] + rest
      else [[s[0]] + rest[0]] + rest[1..]
  }

  lemma {:induction false} SplitWithout(s: string, sep: char)
    requires sep !in s
    ensures Split(s, sep) == [s]
  {
    if |s| > 0 {
      SplitWithout(s[1..], sep);
      assert [s[0]] + s[1..] == s;
    }
  }

  lemma {:induction false} SplitAt(line: string, sep: char, rest: string)
    requires sep !in line
    ensures Split(line + [sep] + rest, sep) == [line] + Split(rest, sep)
  {
    if |line| == 0 {
      assert line + [sep] + rest == [sep] + rest;
      assert ([sep] + rest)[1..] == rest;
    } else {
      SplitAt(line[1..], sep, rest);
      assert (line + [sep] + rest)[1..] == line[1..] + [sep] + rest;
      assert [line[0]] + line[1..] == line;
    }
  }

  /** Joining lines that hold no newline and splitting the message on
      newlines gives the lines back. */
  lemma {:induction false} SplitJoin(lines: seq<string>, sep: char)
    requires |lines| >= 1
    requires forall i :: 0 <= i < |lines| ==> sep !in lines[i]
    ensures Split(Join(lines, [sep]), sep) == lines
  {
    if |lines| == 1 {
      SplitWithout(lines[0], sep);
    } else {
      SplitJoin(lines[1..], sep);
      SplitAt(lines[0], sep, Join(lines[1..], [sep]));
      assert [lines[0]] + lines[1..] == lines;
    }
  }

  /** Splitting any message on a character and joining the pieces with it
      gives the message back. */
  lemma {:induction false} JoinSplit(s: string, sep: char)
    ensures Join(Split(s, sep), [sep]) == s
  {
    if |s| > 0 {
      JoinSplit(s[1..], sep);
      var rest := Split(s[1..], sep);
      if s[0] == sep {
        assert ([""] + rest)[1..] == rest;
      } else {
        var head := [s[0]] + rest[0];
        var pieces := [head] + rest[1..];
        if |rest| == 1 {
          assert Join(pieces, [sep]) == head;
        } else {
          assert pieces[1..] == rest[1..];
          assert Join(rest, [sep]) == rest[0] + [sep] + Join(rest[1..], [sep]);
        }
        assert [s[0]] + s[1..] == s;
      }
    }
  }
}
