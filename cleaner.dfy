/** `clean`: strips `;` comments, spaces and newlines from the raw program text. */
module Cleaner {

  /** Whether a `;` comment is open after reading `s[..i]`: a `;` opens one and a newline
      closes it. */
  function CommentOpen(s: string, i: nat): bool
    requires i <= |s|
  {
    if i == 0 then false
    else if s[i - 1] == '\n' then false
    else if s[i - 1] == ';' then true
    else CommentOpen(s, i - 1)
  }

  /** The character at `i` survives cleaning: it is neither a space nor a newline, and no
      comment is open once it has been read (so it is neither a `;` nor inside a comment). */
  predicate Keep(s: string, i: nat)
    requires i < |s|
  {
    s[i] != ' ' && s[i] != '\n' && !CommentOpen(s, i + 1)
  }

  /** The characters of `s[..n]` that survive cleaning, in order. */
  function KeptPrefix(s: string, n: nat): string
    requires n <= |s|
  {
    if n == 0 then [] else KeptPrefix(s, n - 1) + (if Keep(s, n - 1) then [s[n - 1]] else [])
  }

  /** The cleaned text. */
  function Cleaned(s: string): string {
    KeptPrefix(s, |s|)
  }

  /** The characters that never reach the interpreter. */
  predicate Stripped(c: char) {
    c == ' ' || c == '\n' || c == ';'
  }

  /** The loops of `clean`: skip a comment up to its newline, drop spaces and newlines,
      append everything else. */
  method Clean(input: string) returns (program: string)
    ensures program == Cleaned(input)
  {
    program := [];
    var i := 0;
    while i < |input|
      invariant 0 <= i <= |input|
      invariant program == KeptPrefix(input, i)
      invariant i < |input| && CommentOpen(input, i) ==> input[i] == '\n'
      decreases |input| - i
    {
      var c := input[i];
      if c == ';' {
        ghost var start := i;
        while i < |input| && input[i] != '\n'
          invariant start <= i <= |input|
          invariant program == KeptPrefix(input, i)
          invariant i > start ==> CommentOpen(input, i)
          decreases |input| - i
        {
          i := i + 1;
        }
        continue;
      }
      match c {
        case '\n' | ' ' =>
        case _ =>
          program := program + [c];
      }
      i := i + 1;
    }
  }

  /** A comment is open after `s[..i]` exactly when some `;` before `i` has no newline
      after it before `i`. */
  lemma {:induction false} CommentOpenMeans(s: string, i: nat)
    requires i <= |s|
    ensures CommentOpen(s, i) <==>
      exists k :: 0 <= k < i && s[k] == ';' && forall m :: k < m < i ==> s[m] != '\n'
  {
    if i > 0 {
      CommentOpenMeans(s, i - 1);
      if s[i - 1] != '\n' && s[i - 1] != ';' && !CommentOpen(s, i) {
        forall k | 0 <= k < i && s[k] == ';' ensures exists m :: k < m < i && s[m] == '\n' {
          assert k != i - 1;
          assert !forall m :: k < m < i - 1 ==> s[m] != '\n';
        }
      }
    }
  }

  /** A character is kept exactly when it is not a space or a newline and no `;` before it
      or at it on its own line starts a comment. */
  lemma KeepMeans(s: string, i: nat)
    requires i < |s|
    ensures Keep(s, i) <==>
      (s[i] != ' ' && s[i] != '\n' &&
       !exists k :: 0 <= k <= i && s[k] == ';' && forall m :: k < m <= i ==> s[m] != '\n')
  {
    CommentOpenMeans(s, i + 1);
  }

  /** Nothing the interpreter should not see is left in the cleaned text. */
  lemma {:induction false} KeptPrefixClean(s: string, n: nat)
    requires n <= |s|
    ensures forall k :: 0 <= k < |KeptPrefix(s, n)| ==> !Stripped(KeptPrefix(s, n)[k])
  {
    if n > 0 {
      KeptPrefixClean(s, n - 1);
    }
  }

  /** `idx` picks out `a` from `b`: strictly increasing positions of `b` holding the
      characters of `a`, in order. */
  ghost predicate Embeds(idx: seq<int>, a: string, b: string) {
    |idx| == |a| &&
    (forall k :: 0 <= k < |idx| ==> 0 <= idx[k] < |b| && a[k] == b[idx[k]]) &&
    (forall k, l :: 0 <= k < l < |idx| ==> idx[k] < idx[l])
  }

  /** `a` is `b` with some characters deleted and the rest kept in order. */
  ghost predicate IsSubsequence(a: string, b: string) {
    exists idx :: Embeds(idx, a, b)
  }

  /** The positions of `s[..n]` that survive cleaning, in increasing order. */
  function KeptIndices(s: string, n: nat): seq<int>
    requires n <= |s|
  {
    if n == 0 then [] else KeptIndices(s, n - 1) + (if Keep(s, n - 1) then [n - 1] else [])
  }

  /** The kept positions pick the cleaned text out of the input, all of them before `n`. */
  lemma {:induction false} KeptIndicesEmbed(s: string, n: nat)
    requires n <= |s|
    ensures Embeds(KeptIndices(s, n), KeptPrefix(s, n), s)
    ensures forall k :: 0 <= k < |KeptIndices(s, n)| ==> KeptIndices(s, n)[k] < n
  {
    if n > 0 {
      KeptIndicesEmbed(s, n - 1);
    }
  }

  /** Cleaning never lengthens the text. */
  lemma {:induction false} KeptPrefixShorter(s: string, n: nat)
    requires n <= |s|
    ensures |KeptPrefix(s, n)| <= n
  {
    if n > 0 {
      KeptPrefixShorter(s, n - 1);
    }
  }

  /** The cleaned text holds no space, newline or `;`, and is a subsequence of the input. */
  lemma CleanedProperties(s: string)
    ensures forall k :: 0 <= k < |Cleaned(s)| ==> !Stripped(Cleaned(s)[k])
    ensures IsSubsequence(Cleaned(s), s) && |Cleaned(s)| <= |s|
  {
    KeptPrefixClean(s, |s|);
    KeptIndicesEmbed(s, |s|);
    KeptPrefixShorter(s, |s|);
  }

  /** In a text without spaces, newlines or `;`, no comment is ever open and every
      character is kept. */
  lemma {:induction false} KeptPrefixIdentity(s: string, n: nat)
    requires n <= |s|
    requires forall k :: 0 <= k < |s| ==> !Stripped(s[k])
    ensures !CommentOpen(s, n)
    ensures KeptPrefix(s, n) == s[..n]
  {
    if n > 0 {
      KeptPrefixIdentity(s, n - 1);
      assert s[..n] == s[..n - 1] + [s[n - 1]];
    }
  }

  /** Cleaning is the identity on already-clean text, so cleaning twice is cleaning once. */
  lemma CleanedIdempotent(s: string)
    ensures (forall k :: 0 <= k < |s| ==> !Stripped(s[k])) ==> Cleaned(s) == s
    ensures Cleaned(Cleaned(s)) == Cleaned(s)
  {
    if forall k :: 0 <= k < |s| ==> !Stripped(s[k]) {
      KeptPrefixIdentity(s, |s|);
    }
    CleanedProperties(s);
    KeptPrefixIdentity(Cleaned(s), |Cleaned(s)|);
  }
}
