/** Values shared by every part of the account engine. */
module Common {

  /** An optional value: `undefined`/`null` on the TypeScript side is `None`. */
  datatype Option<T> = None | Some(value: T)

  /** JavaScript truthiness of an optional string: an absent value and the
      empty string are both falsy, every other string is truthy. */
  predicate Truthy(s: Option<string>)
    ensures Truthy(s) <==> s != None && s != Some("")
  {
    s.Some? && s.value != ""
  }

  /** JavaScript's `s.length`: the number of UTF-16 code units of `s`. A
      `string` here is a sequence of Unicode scalar values; one above U+FFFF
      takes two code units (a surrogate pair), any other takes one. */
  function Utf16Length(s: string): (n: nat)
    ensures |s| <= n <= 2 * |s|
    ensures n == |s| <==> forall i :: 0 <= i < |s| ==> s[i] as int <= 0xFFFF
    ensures n == |s| + |set i | 0 <= i < |s| && s[i] as int > 0xFFFF|
  {
    if s == [] then 0
    else
      AstralIndicesOfPrefix(s, s[..|s| - 1]);
      Utf16Length(s[..|s| - 1]) + (if s[|s| - 1] as int > 0xFFFF then 2 else 1)
  }

  /** The positions above U+FFFF in a non-empty string are those of the string
      without its last character, plus the last position when that character
      is one. */
  lemma AstralIndicesOfPrefix(s: string, prefix: string)
    requires s != [] && prefix == s[..|s| - 1]
    ensures |set i | 0 <= i < |s| && s[i] as int > 0xFFFF|
         == |set i | 0 <= i < |prefix| && prefix[i] as int > 0xFFFF|
            + (if s[|s| - 1] as int > 0xFFFF then 1 else 0)
  {
    var whole := set i | 0 <= i < |s| && s[i] as int > 0xFFFF;
    var front := set i | 0 <= i < |prefix| && prefix[i] as int > 0xFFFF;
    var last: set<int> := if s[|s| - 1] as int > 0xFFFF then {|s| - 1} else {};
    assert whole == front + last;
    assert |s| - 1 !in front;
  }
}
