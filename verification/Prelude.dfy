/** What all modules share: optional values, searching in text, and decimal numbers. */
module Prelude {
  datatype Option<+T> = None | Some(value: T)

  predicate OccursAt(s: string, n: string, p: nat) {
    p + |n| <= |s| && s[p..p + |n|] == n
  }

  predicate Contains(s: string, n: string) {
    exists p: nat | p <= |s| :: OccursAt(s, n, p)
  }

  function Digits(n: nat): string {
    if n < 10 then [n as char + '0'] else Digits(n / 10) + [(n % 10) as char + '0']
  }

  predicate IsDigit(c: char) {
    '0' <= c <= '9'
  }
}
