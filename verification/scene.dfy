/** The Scene wrapper: it renders its children only while its `isActive` prop is true. */
module SceneView {
  import opened Optional

  /** The rendered children, or nothing when the scene is not active. */
  function SceneGate<T>(isActive: bool, children: T): Option<T>
  {
    if !isActive then None else Some(children)
  }
}
