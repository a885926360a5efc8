/** What the recursive-descent parser of cJSON computes from a text. */
module Parser {
  import opened Bytes
  import opened Json
  import opened Numbers
  import opened Strings

  /** `Error(at)`: the parser returned a null pointer and `cJSON_GetErrorPtr` is at index `at`.
      `Overrun`: an incomplete escape may send the cursor past the end of the text, where C defines
      nothing. */
  datatype Parsed<T> = Ok(value: T, next: nat) | Error(at: nat) | Overrun {
    predicate IsFailure() {
      !Ok?
    }

    function PropagateFailure<U>(): Parsed<U>
      requires IsFailure()
    {
      if Error? then Error(at) else Overrun
    }

    function Extract(): (T, nat)
      requires Ok?
    {
      (value, next)
    }
  }

  /** Just after the closing quote of the literal whose body starts at `p`, or at the NUL. */
  function AfterLiteral(s: Text, p: nat): (k: nat)
    requires CompleteFrom(s, p)
    ensures p <= k && (p <= |s| ==> k <= |s|)
  {
    var e := LiteralEnd(s, p);
    if At(s, e) == QUOTE then e + 1 else e
  }

  function ParseString(s: Text, i: nat): (r: Parsed<Text>)
    ensures r.Ok? ==> i < r.next <= |s|
  {
    if At(s, i) != QUOTE then Error(i)
    else if !CompleteFrom(s, i + 1) then Overrun
    else Ok(Unescape(s, i + 1), AfterLiteral(s, i + 1))
  }

  function ParseValue(s: Text, i: nat): (r: Parsed<Json>)
    ensures r.Ok? ==> i < r.next <= |s|
    decreases |s| - i, 2
  {
    if StartsWith(s, i, NULL_WORD) then Ok(Null, i + 4)
    else if StartsWith(s, i, FALSE_WORD) then Ok(False, i + 5)
    else if StartsWith(s, i, TRUE_WORD) then Ok(True, i + 4)
    else if At(s, i) == QUOTE then
      var (t, k) :- ParseString(s, i);
      Ok(String(t), k)
    else if At(s, i) == MINUS || IsDigit(At(s, i)) then
      var (v, k) := ParseNumber(s, i);
      Ok(Number(v), k)
    else if At(s, i) == LBRACKET then ParseArray(s, i)
    else if At(s, i) == LBRACE then ParseObject(s, i)
    else Error(i)
  }

  function ParseArray(s: Text, i: nat): (r: Parsed<Json>)
    requires At(s, i) == LBRACKET
    ensures r.Ok? ==> i < r.next <= |s|
    decreases |s| - i, 1
  {
    var k := Skip(s, i + 1);
    if At(s, k) == RBRACKET then Ok(Array([]), k + 1)
    else
      var (items, n) :- ParseItems(s, i + 1);
      Ok(Array(items), n)
  }

  /** One or more values with commas between them, and the closing bracket. */
  function ParseItems(s: Text, i: nat): (r: Parsed<seq<Json>>)
    ensures r.Ok? ==> i < r.next <= |s| && r.value != []
    decreases |s| - i, 3
  {
    var (v, n) :- ParseValue(s, Skip(s, i));
    var k := Skip(s, n);
    if At(s, k) == COMMA then
      var (vs, m) :- ParseItems(s, k + 1);
      Ok([v] + vs, m)
    else if At(s, k) == RBRACKET then Ok([v], k + 1)
    else Error(k)
  }

  function ParseObject(s: Text, i: nat): (r: Parsed<Json>)
    requires At(s, i) == LBRACE
    ensures r.Ok? ==> i < r.next <= |s|
    decreases |s| - i, 1
  {
    var k := Skip(s, i + 1);
    if At(s, k) == RBRACE then Ok(Object([]), k + 1)
    else
      var (members, n) :- ParseMembers(s, i + 1);
      Ok(Object(members), n)
  }

  /** A name, a colon and a value. */
  function ParseMember(s: Text, i: nat): (r: Parsed<Member>)
    ensures r.Ok? ==> i < r.next <= |s|
    decreases |s| - i, 3
  {
    var (name, n) :- ParseString(s, Skip(s, i));
    var k := Skip(s, n);
    if At(s, k) != COLON then Error(k)
    else
      var (v, m) :- ParseValue(s, Skip(s, k + 1));
      Ok(Member(name, v), m)
  }

  /** One or more members with commas between them, and the closing brace. */
  function ParseMembers(s: Text, i: nat): (r: Parsed<seq<Member>>)
    ensures r.Ok? ==> i < r.next <= |s| && r.value != []
    decreases |s| - i, 4
  {
    var (m, n) :- ParseMember(s, i);
    var k := Skip(s, n);
    if At(s, k) == COMMA then
      var (ms, e) :- ParseMembers(s, k + 1);
      Ok([m] + ms, e)
    else if At(s, k) == RBRACE then Ok([m], k + 1)
    else Error(k)
  }

  /** `cJSON_ParseWithOpts`, when no allocation fails. */
  function ParseWithOpts(s: Text, requireNullTerminated: bool): (r: Parsed<Json>)
    ensures r.Ok? ==> r.next <= |s|
  {
    var (v, n) :- ParseValue(s, Skip(s, 0));
    var k := Skip(s, n);
    if !requireNullTerminated then Ok(v, n)
    else if At(s, k) != 0 then Error(k)
    else Ok(v, k)
  }

  // ----- Texts that the parser can be given --------------------------------

  /** From position `i`, outside a literal, every string literal of the text has complete escapes. */
  ghost predicate Complete(s: Text, i: nat)
    decreases |s| - i
  {
    if i >= |s| then true
    else if s[i] == QUOTE then CompleteFrom(s, i + 1) && Complete(s, AfterLiteral(s, i + 1))
    else Complete(s, i + 1)
  }

  lemma {:induction false} CompleteSkip(s: Text, i: nat)
    requires Complete(s, i)
    ensures Complete(s, Skip(s, i))
    decreases |s| - i
  {
    if 0 < At(s, i) <= 32 {
      CompleteSkip(s, i + 1);
    }
  }

  lemma {:induction false} CompleteDigits(s: Text, i: nat, acc: int)
    requires Complete(s, i)
    ensures Complete(s, ReadDigits(s, i, acc).1)
    decreases |s| - i
  {
    if IsDigit(At(s, i)) {
      CompleteDigits(s, i + 1, acc * 10 + (At(s, i) - 48));
    }
  }

  lemma {:induction false} CompleteMantissa(s: Text, i: nat, acc: real)
    requires Complete(s, i)
    ensures Complete(s, ReadMantissa(DOUBLES, s, i, acc).1)
    decreases |s| - i
  {
    if IsDigit(At(s, i)) {
      CompleteMantissa(s, i + 1, DOUBLES.step(acc, At(s, i) - 48));
    }
  }

  lemma CompleteWhole(s: Text, i: nat)
    requires Complete(s, i)
    ensures Complete(s, IntegerPart(DOUBLES, s, i).1)
  {
    CompleteMantissa(s, if At(s, i) == 48 then i + 1 else i, 0.0);
  }

  lemma CompleteFraction(s: Text, i: nat, n: real)
    requires Complete(s, i)
    ensures Complete(s, FractionPart(DOUBLES, s, i, n).1)
  {
    if At(s, i) == DOT {
      CompleteMantissa(s, i + 1, n);
    }
  }

  lemma CompleteExponent(s: Text, i: nat)
    requires Complete(s, i)
    ensures Complete(s, ExponentPart(s, i).1)
  {
    if At(s, i) == 101 || At(s, i) == 69 {
      CompleteDigits(s, if At(s, i + 1) == MINUS || At(s, i + 1) == PLUS then i + 2 else i + 1, 0);
    }
  }

  lemma CompleteNumber(s: Text, i: nat)
    requires Complete(s, i)
    ensures Complete(s, ParseNumber(s, i).1)
  {
    hide IntegerPart, FractionPart, ExponentPart;
    var i1 := if At(s, i) == MINUS then i + 1 else i;
    assert Complete(s, i1);
    hide Complete;
    CompleteWhole(s, i1);
    var whole := IntegerPart(DOUBLES, s, i1);
    CompleteFraction(s, whole.1, whole.0);
    CompleteExponent(s, FractionPart(DOUBLES, s, whole.1, whole.0).1);
  }

  lemma {:induction false} CompleteWord(s: Text, i: nat, w: Text)
    requires Complete(s, i) && StartsWith(s, i, w) && QUOTE !in w
    ensures Complete(s, i + |w|)
    decreases |w|
  {
    if w != [] {
      assert s[i] == s[i..i + |w|][0] == w[0];
      assert s[i + 1..i + |w|] == s[i..i + |w|][1..];
      CompleteWord(s, i + 1, w[1..]);
    }
  }

  lemma CompletePast(s: Text, i: nat)
    requires Complete(s, i) && At(s, i) != QUOTE
    ensures Complete(s, i + 1)
  {
  }

  /** The parser then stays inside the text. */
  lemma {:induction false} CompleteValue(s: Text, i: nat)
    requires Complete(s, i)
    ensures !ParseValue(s, i).Overrun?
    ensures ParseValue(s, i).Ok? ==> Complete(s, ParseValue(s, i).next)
    decreases |s| - i, 2
  {
    if StartsWith(s, i, NULL_WORD) {
      CompleteWord(s, i, NULL_WORD);
    } else if StartsWith(s, i, FALSE_WORD) {
      CompleteWord(s, i, FALSE_WORD);
    } else if StartsWith(s, i, TRUE_WORD) {
      CompleteWord(s, i, TRUE_WORD);
    } else if At(s, i) == MINUS || IsDigit(At(s, i)) {
      CompleteNumber(s, i);
    } else if At(s, i) == LBRACKET {
      CompleteSkip(s, i + 1);
      CompleteItems(s, i + 1);
    } else if At(s, i) == LBRACE {
      CompleteSkip(s, i + 1);
      CompleteMembers(s, i + 1);
    }
  }

  lemma {:induction false} CompleteItems(s: Text, i: nat)
    requires Complete(s, i)
    ensures !ParseItems(s, i).Overrun?
    ensures ParseItems(s, i).Ok? ==> Complete(s, ParseItems(s, i).next)
    decreases |s| - i, 3
  {
    hide Complete, ParseValue;
    assert i > |s| ==> Skip(s, i) == i;
    hide Skip;
    CompleteSkip(s, i);
    CompleteValue(s, Skip(s, i));
    var v := ParseValue(s, Skip(s, i));
    if v.Ok? {
      CompleteSkip(s, v.next);
      if At(s, Skip(s, v.next)) == COMMA {
        CompletePast(s, Skip(s, v.next));
        CompleteItems(s, Skip(s, v.next) + 1);
      } else if At(s, Skip(s, v.next)) == RBRACKET {
        CompletePast(s, Skip(s, v.next));
      }
    }
  }

  lemma {:induction false} CompleteMember(s: Text, i: nat)
    requires Complete(s, i)
    ensures !ParseMember(s, i).Overrun?
    ensures ParseMember(s, i).Ok? ==> Complete(s, ParseMember(s, i).next)
    decreases |s| - i, 3
  {
    CompleteSkip(s, i);
    var name := ParseString(s, Skip(s, i));
    if name.Ok? {
      var k := Skip(s, name.next);
      CompleteSkip(s, name.next);
      if At(s, k) == COLON {
        CompleteSkip(s, k + 1);
        CompleteValue(s, Skip(s, k + 1));
      }
    }
  }

  lemma {:induction false} CompleteMembers(s: Text, i: nat)
    requires Complete(s, i)
    ensures !ParseMembers(s, i).Overrun?
    ensures ParseMembers(s, i).Ok? ==> Complete(s, ParseMembers(s, i).next)
    decreases |s| - i, 4
  {
    CompleteMember(s, i);
    var m := ParseMember(s, i);
    if m.Ok? {
      CompleteSkip(s, m.next);
      if At(s, Skip(s, m.next)) == COMMA {
        CompleteMembers(s, Skip(s, m.next) + 1);
      }
    }
  }

  /** Complete escapes are enough for the parser to stay inside the text. */
  lemma CompleteParse(s: Text, requireNullTerminated: bool)
    requires Complete(s, 0)
    ensures !ParseWithOpts(s, requireNullTerminated).Overrun?
  {
    CompleteSkip(s, 0);
    CompleteValue(s, Skip(s, 0));
  }
}
