/**
 * What a shell command hands back to the terminal, and the prompter it may question.
 */
module Console {
  import opened Fs

  /**
   * The text a command returns, or a panic of the handler; `asked` lists the prompts the
   * prompter was shown before it, in order.
   */
  datatype Outcome = Reply(text: string, asked: seq<string>) | Panic(asked: seq<string>)

  /**
   * `UserPrompter`: `confirm` answers every yes/no question the same way and `answer` is the
   * text typed at an input prompt. `DummyPrompter` confirms and types nothing.
   */
  datatype Prompter = Prompter(confirms: bool, answer: string)

  const DUMMY_PROMPTER := Prompter(true, "")

  /** What a command prints together with the world it leaves. */
  datatype Run = Run(out: Outcome, world: World)

  /** A message together with the world one step of a command leaves. */
  datatype Effect = Effect(text: string, world: World)

  /** `w'` keeps every stored path of `w` with its entry; it may add new ones. */
  predicate Extends(w: World, w': World) {
    forall k :: k in w ==> k in w' && w'[k] == w[k]
  }
}
