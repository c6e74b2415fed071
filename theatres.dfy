/** The fixed list of theatres the duplicator can generate for. */
module Theatres {

  /** `THEATRES`, in the order the checkboxes are shown and the outputs are generated. */
  const THEATRES: seq<string> := [
    "Afghanistan", "Caucasus", "Channel", "Falklands", "GermanyCW", "Iraq",
    "Kola", "MarianaIslands", "Nevada", "Normandy", "PersianGulf", "Sinai", "Syria"
  ]

  /** A name that can stand as an assignment value and as a file-name component: not empty,
      and without a quote, a line break, a `[` or a path separator. */
  predicate IsPlainName(t: string) {
    t != [] && forall c :: c in t ==> c != '"' && c != '\n' && c != '[' && c != '/'
  }

  /** Thirteen distinct theatres, each a plain name. */
  lemma {:induction false} TheatresArePlain()
    ensures |THEATRES| == 13
    ensures forall t :: t in THEATRES ==> IsPlainName(t)
    ensures forall i, j :: 0 <= i < j < |THEATRES| ==> THEATRES[i] != THEATRES[j]
  {
  }
}
