/**
  The prompt texts of prompts.ts. The commit-message prompt is a template
  that wraps the change summary in a fixed instruction. The source file has
  CR LF line endings; a JavaScript template literal turns each CR LF into a
  single LF, so every line break below is "\n".
 */
module Prompts {

  /** The fixed text before the embedded summary. It starts with a line
      break and keeps the space after "format". */
  const CommitPromptPrefix: string :=
    "\nYou are a professional software engineer.\n"
    + "Write a commit message in Conventional Commit format \n"
    + "(type(scope): description).\n"
    + "Here are the changes:\n"

  /** The subject-line limit that the reviewer persona asks the model to
      respect. It is prompt text only: nothing in the pipeline checks it. */
  const SubjectLimit: nat := 72

  /** commitMessagePrompt: the fixed prefix, the summary verbatim, one line break. */
  function CommitMessagePrompt(changesSummary: string): (p: string)
    ensures |p| == |CommitPromptPrefix| + |changesSummary| + 1
    ensures p[..|CommitPromptPrefix|] == CommitPromptPrefix
    ensures p[|CommitPromptPrefix|..|p| - 1] == changesSummary
    ensures p[|p| - 1] == '\n'
  {
    CommitPromptPrefix + changesSummary + "\n"
  }

  /** The prefix is 147 characters long and ends with a line break, so the
      summary starts on a line of its own. */
  lemma PrefixShape()
    ensures |CommitPromptPrefix| == 147 && CommitPromptPrefix[146] == '\n'
  {
  }

  /** Different summaries give different prompts: the summary can be read
      back from the prompt. */
  lemma CommitMessagePromptInjective(s1: string, s2: string)
    requires CommitMessagePrompt(s1) == CommitMessagePrompt(s2)
    ensures s1 == s2
  {
  }

  /** Two prompts agree everywhere outside the embedded summaries. */
  lemma CommitMessagePromptVariesOnlyInSummary(s1: string, s2: string)
    ensures CommitMessagePrompt(s1)[..|CommitPromptPrefix|] == CommitMessagePrompt(s2)[..|CommitPromptPrefix|]
    ensures CommitMessagePrompt(s1)[|CommitPromptPrefix| + |s1|..] == CommitMessagePrompt(s2)[|CommitPromptPrefix| + |s2|..] == "\n"
  {
  }
}
