/** The cluster resources kept in the control plane, one per bound resource and cluster. */
module ClusterResources {
  import opened Wrappers

  datatype Status = Status(phase: string, message: string, generation: int)

  /** `binding` is the value of the label that leads back to the binding; `raw` the resource to deploy. */
  datatype ClusterResource = ClusterResource(namespace: string, name: string, binding: string, raw: Option<string>,
    status: Status)

  /** How `for _, x := range list { m[k] = &x }` behaves: with one variable for the whole loop, as Go
      has it for a module declaring version 1.16, or with a variable per iteration, as is meant. */
  datatype LoopVar = Shared | PerIteration
}
