/** The query keys `post` hands out: `'a'`, then `String#succ` of the
    previous key, restricted to strings of lowercase letters. */
module UrlKeys {

  predicate IsLower(c: char)
  {
    'a' <= c <= 'z'
  }

  /** A non-empty string of lowercase letters. */
  predicate IsKey(s: string)
  {
    |s| >= 1 && forall i | 0 <= i < |s| :: IsLower(s[i])
  }

  /** The letter with offset d from 'a'. */
  function Letter(d: nat): (c: char)
    requires d < 26
    ensures IsLower(c) && c as int - 'a' as int == d
  {
    ('a' as int + d) as char
  }

  /** `String#succ` on lowercase letters: the last letter steps forward; a
      'z' wraps to 'a' and carries into the letter before it, and a carry out
      of the first letter adds a new leading 'a' ("z" to "aa", "az" to "ba"). */
  function Succ(s: string): (r: string)
    requires IsKey(s)
    ensures IsKey(r)
    decreases |s|
  {
    var last := s[|s| - 1];
    if last != 'z' then s[..|s| - 1] + [(last as int + 1) as char]
    else if |s| == 1 then "aa"
    else Succ(s[..|s| - 1]) + ['a']
  }

  /** The n-th key handed out, counting from 0: bijective base 26, so
      0 is "a", 25 is "z", 26 is "aa", 27 is "ab". */
  function KeyOf(n: nat): (s: string)
    ensures IsKey(s)
    decreases n
  {
    if n < 26 then [Letter(n)] else KeyOf(n / 26 - 1) + [Letter(n % 26)]
  }

  /** The position of a key in the sequence of keys. */
  function KeyIndex(s: string): nat
    requires IsKey(s)
    decreases |s|
  {
    var d := s[|s| - 1] as int - 'a' as int;
    if |s| == 1 then d else (KeyIndex(s[..|s| - 1]) + 1) * 26 + d
  }

  /** `succ` steps from each key to the next one: the loop's `url_key`
      after i steps is `KeyOf(i)`. */
  lemma {:induction false} SuccNext(n: nat)
    ensures Succ(KeyOf(n)) == KeyOf(n + 1)
    decreases n
  {
    if n >= 26 {
      var q, d := n / 26 - 1, n % 26;
      var front := KeyOf(q);
      assert KeyOf(n) == front + [Letter(d)];
      assert KeyOf(n)[..|KeyOf(n)| - 1] == front;
      if d == 25 {
        SuccNext(q);
        assert (n + 1) / 26 - 1 == q + 1 && (n + 1) % 26 == 0;
      } else {
        assert (n + 1) / 26 - 1 == q && (n + 1) % 26 == d + 1;
      }
    }
  }

  /** The first key is "a". */
  lemma FirstKey()
    ensures KeyOf(0) == "a"
  {
  }

  /** `KeyIndex` undoes `KeyOf`. */
  lemma {:induction false} KeyIndexOfKey(n: nat)
    ensures KeyIndex(KeyOf(n)) == n
    decreases n
  {
    if n >= 26 {
      var s := KeyOf(n);
      assert s[..|s| - 1] == KeyOf(n / 26 - 1);
      KeyIndexOfKey(n / 26 - 1);
    }
  }

  /** `KeyOf` undoes `KeyIndex`: every lowercase string is handed out once. */
  lemma {:induction false} KeyOfIndex(s: string)
    requires IsKey(s)
    ensures KeyOf(KeyIndex(s)) == s
    decreases |s|
  {
    var d := s[|s| - 1] as int - 'a' as int;
    if |s| > 1 {
      var front := s[..|s| - 1];
      KeyOfIndex(front);
      var n := (KeyIndex(front) + 1) * 26 + d;
      assert n / 26 - 1 == KeyIndex(front) && n % 26 == d;
      assert s == front + [s[|s| - 1]];
    }
  }

  /** Distinct positions get distinct keys, so `commands[url_key] = ...`
      always adds a new entry. */
  lemma KeysDistinct(m: nat, n: nat)
    requires m != n
    ensures KeyOf(m) != KeyOf(n)
  {
    KeyIndexOfKey(m);
    KeyIndexOfKey(n);
  }
}
