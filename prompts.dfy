/** The four prompt templates of the processor, by the values filled into them. Their
    wording is not modelled: two prompts are the same exactly when they come from the
    same template with the same values. */
module Prompts {

  datatype Prompt =
    | ChunkSummary(part: nat, title: string, chunk: string)          // summarise PART n
    | ActionExtraction(part: nat, title: string, chunk: string)      // action points of PART n
    | ComplianceSynthesis(title: string, summaries: string)          // combine, stressing obligations
    | AdministrativeSynthesis(title: string, summaries: string)      // combine, allowing "administrative"
}
