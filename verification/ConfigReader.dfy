/** The configuration parser as it runs: one file read character by character, a slot for one
    returned character, one token buffer. Each routine is proved against its function in
    ConfigParser. */
module ConfigReader {
  import opened Common
  import opened ConfigParser

  /** What a routine hands back: a result, NULL, or nothing, because it does not return or would
      write behind the buffer. */
  datatype Answer<T> = Done(value: T) | Failed | Lost

  /** The answer and the state it leaves are those of the function. */
  ghost predicate Agree<T>(r: Answer<T>, s: State, out: Out<T>) {
    match out
    case Ok(v, s') => r == Done(v) && s == s'
    case Error(s') => r == Failed && s == s'
    case Stuck => r == Lost
  }

  class Parser {
    const file: seq<int>
    const temp: array<int>
    var pos: nat
    var returned: int
    var idx: nat
    var nesting: nat
    var ignore: bool

    ghost predicate Valid()
      reads this
    {
      temp.Length == TEMP_BUF_LEN && idx <= TEMP_BUF_LEN && pos <= |file|
    }

    ghost function View(): State
      requires Valid()
      reads this, temp
    {
      State((if returned != 0 then [returned] else []) + file[pos..], temp[..idx], nesting, ignore)
    }

    constructor (file: seq<int>)
      ensures Valid() && fresh(temp) && returned == 0
      ensures View() == State(file, [], 0, false)
    {
      this.file := file;
      temp := new int[TEMP_BUF_LEN];
      pos, returned, idx, nesting, ignore := 0, 0, 0, 0, false;
    }

    // ---- characters ----

    /** A returned character first, then the file; behind its end there is only EOF. */
    method NextChar() returns (ch: int, end: bool)
      requires Valid()
      modifies this`pos, this`returned
      ensures Valid() && returned == 0
      ensures end == (old(View()).stream == [])
      ensures end ==> ch == EOF && View() == old(View())
      ensures !end ==> ch == old(View()).stream[0] && View() == old(View()).(stream := old(View()).stream[1..])
    {
      end := false;
      if returned != 0 {
        ch := returned;
        returned := 0;
      } else if pos < |file| {
        ch := file[pos];
        pos := pos + 1;
      } else {
        ch, end := EOF, true;
      }
    }

    method ReadChar() returns (ch: int, ok: bool)
      requires Valid()
      modifies this`pos, this`returned
      ensures Valid()
      ensures ok == Read(old(View())).Some?
      ensures ok ==> returned == 0 && Read(old(View())).value == (ch, View())
    {
      ghost var s := View();
      var inComment := false;
      ch, ok := 0, true;
      while true
        invariant Valid() && View() == s.(stream := View().stream)
        invariant if inComment then Commented(s) && SkipComment(s.stream[1..]) == SkipComment(View().stream) else View() == s
        decreases |View().stream|
      {
        var end;
        ch, end := NextChar();
        if inComment && end {
          // Only ends of file from here on: the loop of the loader goes on for ever.
          return ch, false;
        }
        if ch == NEWLINE {
          inComment := false;
        } else if !ignore && ch == HASH {
          inComment := true;
        }
        if !inComment {
          return ch, true;
        }
      }
    }

    ghost static predicate Commented(s: State) {
      s.stream != [] && s.stream[0] == HASH && !s.ignore
    }

    method ReturnChar(ch: int)
      requires Valid() && returned == 0
      modifies this`returned
      ensures Valid() && View() == Push(old(View()), ch)
    {
      returned := ch;
    }

    method PutChar(ch: int) returns (ok: bool)
      requires Valid()
      modifies this`idx, temp
      ensures Valid()
      ensures ok == Put(old(View()), ch).Some?
      ensures ok ==> View() == Put(old(View()), ch).value
    {
      ok := idx < TEMP_BUF_LEN;
      if ok {
        temp[idx] := ch;
        idx := idx + 1;
      }
    }

    method TakeToken() returns (t: seq<int>, ok: bool)
      requires Valid()
      modifies this`idx, temp
      ensures Valid()
      ensures ok == Token(old(View())).Some?
      ensures ok ==> Token(old(View())).value == (t, View())
    {
      t, ok := [], idx < TEMP_BUF_LEN;
      if ok {
        temp[idx] := 0;
        t := Duplicate();
        idx := 0;
      }
    }

    /** strdup of the buffer. */
    method Duplicate() returns (t: seq<int>)
      requires Valid() && idx < TEMP_BUF_LEN && temp[idx] == 0
      ensures t == CString(temp[..idx])
    {
      t := [];
      var k := 0;
      while temp[k] != 0
        invariant 0 <= k <= idx && t + CString(temp[k..idx]) == CString(temp[..idx])
        decreases idx - k
      {
        t := t + [temp[k]];
        k := k + 1;
      }
    }

    // ---- tokens ----

    method Digits(first: int, base: nat) returns (r: Answer<nat>)
      requires Valid() && returned == 0
      modifies this`pos, this`returned
      ensures Valid()
      ensures Agree(r, View(), ParseDigits(first, base, 0, old(View())))
    {
      ghost var s := View();
      var ch, result: nat, ok := first, 0, true;
      while IsXDigit(ch) && DigitValue(ch) < base
        invariant Valid() && returned == 0
        invariant ParseDigits(ch, base, result, View()) == ParseDigits(first, base, 0, s)
        decreases Left(View()) + (if ch == EOF then 0 else 1)
      {
        result := (result * base + DigitValue(ch)) % U64;
        ch, ok := ReadChar();
        if !ok {
          return Lost;
        }
      }
      ReturnChar(ch);
      return Done(result);
    }

    method Integer(first: int) returns (r: Answer<nat>)
      requires Valid() && IsDigit(first) && returned == 0
      modifies this`pos, this`returned
      ensures Valid()
      ensures Agree(r, View(), ParseInteger(first, old(View())))
    {
      var ch, base, ok := first, 10, true;
      if ch == ZERO {
        ch, ok := ReadChar();
        if !ok {
          return Lost;
        }
        if ToLower(ch) == 120 {
          ch, ok := ReadChar();
          if !ok {
            return Lost;
          }
          base := 16;
        } else {
          base := 8;
        }
      }
      r := Digits(ch, base);
    }

    method String() returns (r: Answer<seq<int>>)
      requires Valid()
      modifies this`pos, this`returned, this`idx, this`ignore, temp
      ensures Valid()
      ensures Agree(r, View(), ParseString(old(View())))
    {
      ghost var s := View();
      var escaped := false;
      ignore := true;
      while true
        invariant Valid() && ParseText(escaped, View()) == ParseString(s)
        decreases Left(View())
      {
        var ch, ok := ReadChar();
        if !ok {
          return Lost;
        }
        if ch == EOF {
          idx := 0;
          return Failed;
        } else if !escaped && ch == QUOTE {
          ignore := false;
          var t;
          t, ok := TakeToken();
          return if ok then Done(t) else Lost;
        } else if !escaped && ch == BACKSLASH {
          escaped := true;
        } else {
          ok := PutChar(ch);
          if !ok {
            return Lost;
          }
          escaped := false;
        }
      }
    }

    method VariableName() returns (r: Answer<seq<int>>)
      requires Valid()
      modifies this`pos, this`returned, this`idx, temp
      ensures Valid()
      ensures Agree(r, View(), ParseName(old(View())))
    {
      hide Count, CString;
      ghost var s := View();
      while true
        invariant Valid() && ParseName(View()) == ParseName(s)
        decreases Left(View())
      {
        var ch, ok := ReadChar();
        if !ok {
          return Lost;
        }
        if !IsNameChar(ch) {
          if idx == 0 {
            return Failed;
          }
          ReturnChar(ch);
          var t;
          t, ok := TakeToken();
          return if ok then Done(t) else Lost;
        } else {
          ok := PutChar(ch);
          if !ok {
            return Lost;
          }
        }
      }
    }

    method Word(word: seq<int>) returns (r: Answer<bool>)
      requires Valid()
      modifies this`pos, this`returned
      ensures Valid()
      ensures Agree(r, View(), Expect(word, old(View())))
    {
      ghost var s := View();
      var k := 0;
      while k < |word|
        invariant Valid() && 0 <= k <= |word| && Expect(word[k..], View()) == Expect(word, s)
      {
        var ch, ok := ReadChar();
        if !ok {
          return Lost;
        }
        if ch != word[k] {
          return Failed;
        }
        k := k + 1;
      }
      return Done(true);
    }

    // ---- values and commands ----

    /** One value of a value list, from its first character on. */
    method Value(ch: int) returns (r: Answer<Value>)
      requires Valid() && returned == 0 && ch != EOF
      modifies this, temp
      ensures Valid()
      ensures Agree(r, View(), ParseValue(ch, old(View())))
      decreases Left(View()), 4
    {
      if IsDigit(ch) {
        var n := Integer(ch);
        r := ToValue(n, n => ConfigParser.Value.Integer(n));
      } else if ch == 116 {
        var w := Word(RUE);
        r := ToValue(w, w => Boolean(true));
      } else if ch == 102 {
        var w := Word(ALSE);
        r := ToValue(w, w => Boolean(false));
      } else if ch == QUOTE {
        var t := QuotedString();
        r := ToValue(t, t => Str(t));
      } else if ch == OPEN_LIST {
        var vs := NestedList();
        r := ToValue(vs, vs => List(vs));
      } else if ch == OPEN_BLOCK {
        var cs := NestedBlock();
        r := ToValue(cs, cs => Commands(cs));
      } else if ch == DOLLAR {
        var t := VariableName();
        r := ToValue(t, t => Reference(t));
      } else {
        r := Failed;
      }
    }

    method QuotedString() returns (r: Answer<seq<int>>)
      requires Valid()
      modifies this, temp
      ensures Valid()
      ensures Agree(r, View(), Lower(ParseString(old(View()).(nesting := old(nesting) + 1))))
    {
      nesting := nesting + 1;
      r := String();
      LowerNesting();
    }

    method NestedList() returns (r: Answer<seq<Value>>)
      requires Valid()
      modifies this, temp
      ensures Valid()
      ensures Agree(r, View(), Lower(ParseValues(false, false, false, [], old(View()).(nesting := old(nesting) + 1))))
      decreases Left(View()), 3
    {
      nesting := nesting + 1;
      r := ValueList(false);
      LowerNesting();
    }

    method NestedBlock() returns (r: Answer<seq<Command>>)
      requires Valid()
      modifies this, temp
      ensures Valid()
      ensures Agree(r, View(), Lower(ParseCommands(old(View()).(nesting := old(nesting) + 1))))
      decreases Left(View()), 3
    {
      nesting := nesting + 1;
      r := CommandList();
      LowerNesting();
    }

    method LowerNesting()
      requires Valid()
      modifies this`nesting
      ensures Valid() && View() == old(View()).(nesting := if old(nesting) > 0 then old(nesting) - 1 else 0)
    {
      nesting := if nesting > 0 then nesting - 1 else 0;
    }

    static function ToValue<T>(r: Answer<T>, f: T -> Value): Answer<Value> {
      match r
      case Done(x) => Done(f(x))
      case Failed => Failed
      case Lost => Lost
    }

    method ValueList(command: bool) returns (r: Answer<seq<Value>>)
      requires Valid()
      modifies this, temp
      ensures Valid()
      ensures Agree(r, View(), ParseValues(command, false, false, [], old(View())))
      decreases Left(View()), 1
    {
      ghost var s := View();
      var list, escaped, needSpace := [], false, false;
      while true
        invariant Valid() && Left(View()) <= Left(s)
        invariant ParseValues(command, escaped, needSpace, list, View()) == ParseValues(command, false, false, [], s)
        decreases Left(View())
      {
        var ch, ok := ReadChar();
        if !ok {
          return Lost;
        }
        if !escaped {
          if ch == BACKSLASH {
            escaped := true;
            continue;
          } else if (ch == NEWLINE || ch == EOF) && command {
            return Done(list);
          }
        }
        escaped := false;
        if command && ch == CLOSE_BLOCK {
          ReturnChar(ch);
          return Done(list);
        } else if !command && ch == CLOSE_LIST {
          return Done(list);
        } else if IsSpace(ch) {
          needSpace := false;
          continue;
        } else if needSpace || ch == EOF {
          return Failed;
        }
        var v := Value(ch);
        match v {
          case Done(value) =>
            list := list + [value];
            needSpace := true;
          case Failed => return Failed;
          case Lost => return Lost;
        }
      }
    }

    /** The end of a command name; its arguments follow. */
    method EndOfName(ch: int) returns (r: Answer<Command>)
      requires Valid() && returned == 0
      modifies this, temp
      ensures Valid()
      ensures Agree(r, View(), ParseCommand(ch, old(View())))
      decreases Left(View()) + (if ch == EOF then 0 else 1), 2, 0
    {
      var name, ok := TakeToken();
      if !ok {
        return Lost;
      }
      ReturnChar(ch);
      var args := ValueList(true);
      match args {
        case Done(values) => return Done(Command(name, values));
        case Failed => return Failed;
        case Lost => return Lost;
      }
    }

    method CommandList() returns (r: Answer<seq<Command>>)
      requires Valid()
      modifies this, temp
      ensures Valid()
      ensures Agree(r, View(), ParseCommands(old(View())))
      decreases Left(View()), 2
    {
      ghost var s := View();
      var list := [];
      var endch := if nesting > 0 then CLOSE_BLOCK else EOF;
      while true
        invariant Valid() && Left(View()) <= Left(s)
        invariant ParseCommandLoop(endch, list, View()) == ParseCommands(s)
        decreases Left(View()), if View().temp == [] then 0 else 1
      {
        var ch, ok := ReadChar();
        if !ok {
          return Lost;
        }
        if ch == endch || IsSpace(ch) {
          if idx == 0 {
            if ch == endch {
              return Done(list);
            }
            continue;
          }
          var c := EndOfName(ch);
          match c {
            case Done(command) => list := list + [command];
            case Failed => return Failed;
            case Lost => return Lost;
          }
        } else if ch == EOF {
          return Failed;
        } else {
          ok := PutChar(ch);
          if !ok {
            return Lost;
          }
        }
      }
    }

    /** A new file; the token buffer stays as it is. */
    method Parse() returns (r: Answer<seq<Command>>)
      requires Valid()
      modifies this, temp
      ensures Valid()
      ensures Agree(r, View(), ParseCommands(State(file, old(View()).temp, 0, false)))
    {
      pos, nesting, returned, ignore := 0, 0, 0, false;
      assert View() == State(file, old(View()).temp, 0, false);
      r := CommandList();
    }
  }
}
