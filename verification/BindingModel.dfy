/** Bindings as the controllers see them. */
module BindingModel {

  datatype BindingResource = BindingResource(name: string, namespace: string, clusters: seq<string>)

  datatype Binding = Binding(namespace: string, name: string, labels: map<string, string>,
    resources: seq<BindingResource>)

  /** A binding's key in the store. */
  function KeyOf(b: Binding): (string, string) {
    (b.namespace, b.name)
  }
}
